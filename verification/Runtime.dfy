/** The codec of wson_for_runtime.cpp, between runtime values with UTF-8 strings and WSON. */
module Runtime {
  import opened Words
  import opened Seqs
  import opened Varint
  import opened Values
  import opened WsonBuffer
  import opened Parser
  import Text
  import Converters
  import Tags

  type Str = seq<u8>

  /** Runtime values; a map is the list of its entries in iteration order. */
  datatype Rt =
    | RUndefined
    | RNull
    | RInt(i: i32)
    | RDouble(bits: u64)
    | RBool(b: bool)
    | RString(s: Str)
    | RArray(items: seq<Rt>)
    | RMap(entries: seq<Entry>)
    | RFunction
    | RObject

  datatype Entry = Entry(key: Str, value: Rt)

  /** Conversions of the host: `to_utf16`, and a float and a 64-bit integer as a double. */
  datatype Host = Host(toUtf16: Str -> seq<u16>, doubleOfFloat: u32 -> u64, doubleOfLong: i64 -> u64)

  /** Entries of a map that are not written. */
  predicate Dropped(r: Rt) { r.RUndefined? || r.RNull? || r.RFunction? || r.RObject? }

  /** What the encoder can write: functions and objects occur in maps only, where they are dropped. */
  predicate Encodable(r: Rt)
    decreases r, 1
  {
    match r
    case RFunction => false
    case RObject => false
    case RArray(items) => ItemsEncodable(items)
    case RMap(entries) => EntriesEncodable(entries)
    case _ => true
  }

  predicate ItemsEncodable(items: seq<Rt>)
    decreases items, 0
  {
    items != [] ==> Encodable(items[0]) && ItemsEncodable(items[1..])
  }

  predicate EntriesEncodable(entries: seq<Entry>)
    decreases entries, 0
  {
    entries != [] ==>
      && (match entries[0].value case RFunction => true case RObject => true case x => Encodable(x))
      && EntriesEncodable(entries[1..])
  }

  /** The values a map carries over. */
  predicate Carried(r: Rt) {
    match r
    case RInt(_) => true
    case RDouble(_) => true
    case RBool(_) => true
    case RString(_) => true
    case RArray(_) => true
    case RMap(_) => true
    case _ => false
  }

  function ToValue(h: Host, r: Rt): Value
    requires Encodable(r)
    decreases r, 1
  {
    match r
    case RUndefined => Null
    case RNull => Null
    case RInt(i) => Int(i)
    case RDouble(bits) => Double(bits)
    case RBool(b) => Bool(b)
    case RString(s) => Value.Text(Plain, h.toUtf16(s))
    case RArray(items) => Arr(ToItems(h, items))
    case RMap(entries) => Obj(ToMembers(h, entries))
  }

  function ToItems(h: Host, items: seq<Rt>): (vs: seq<Value>)
    requires ItemsEncodable(items)
    ensures |vs| == |items|
    decreases items, 0
  {
    if items == [] then [] else [ToValue(h, items[0])] + ToItems(h, items[1..])
  }

  function ToMembers(h: Host, entries: seq<Entry>): (ms: seq<Member>)
    requires EntriesEncodable(entries)
    ensures |ms| == CountKept(entries)
    decreases entries, 0
  {
    if entries == [] then []
    else
      var e, more := entries[0], ToMembers(h, entries[1..]);
      if Dropped(e.value) then more else [Member(h.toUtf16(e.key), ToValue(h, e.value))] + more
  }

  function CountKept(entries: seq<Entry>): (n: nat)
    ensures n <= |entries|
  {
    if entries == [] then 0 else (if Dropped(entries[0].value) then 0 else 1) + CountKept(entries[1..])
  }

  // ---- writing ----

  /**
   * The bytes the encoder writes, for every value. For a function or an object that no map drops it writes none, though
   * the array around it counts it.
   */
  function Written(h: Host, r: Rt): seq<u8>
    decreases r, 1
  {
    match r
    case RFunction => []
    case RObject => []
    case RArray(items) => [Tags.ARRAY] + Var(|items|) + WrittenItems(h, items)
    case RMap(entries) => [Tags.MAP] + Var(CountKept(entries)) + WrittenEntries(h, entries)
    case _ => Enc(ToValue(h, r))
  }

  function WrittenItems(h: Host, items: seq<Rt>): seq<u8>
    decreases items, 0
  {
    if items == [] then [] else Written(h, items[0]) + WrittenItems(h, items[1..])
  }

  function WrittenEntries(h: Host, entries: seq<Entry>): (bs: seq<u8>)
    ensures |bs| >= CountKept(entries)
    decreases entries, 0
  {
    if entries == [] then []
    else
      var e, more := entries[0], WrittenEntries(h, entries[1..]);
      if Dropped(e.value) then more else Sized(Bytes16(h.toUtf16(e.key))) + Written(h, e.value) + more
  }

  /** Arrays of the host have fewer than 2^32 elements. */
  predicate Countable(r: Rt)
    decreases r, 1
  {
    match r
    case RArray(items) => |items| < 0x1_0000_0000 && ItemsCountable(items)
    case RMap(entries) => EntriesCountable(entries)
    case _ => true
  }

  predicate ItemsCountable(items: seq<Rt>)
    decreases items, 0
  {
    items != [] ==> Countable(items[0]) && ItemsCountable(items[1..])
  }

  predicate EntriesCountable(entries: seq<Entry>)
    decreases entries, 0
  {
    entries != [] ==> Countable(entries[0].value) && EntriesCountable(entries[1..])
  }

  method PushMapKey(h: Host, buffer: Buffer, key: Str)
    requires buffer.Writable() && buffer.RoomFor(|Sized(Bytes16(h.toUtf16(key)))|)
    modifies buffer, buffer.data
    ensures buffer.Appended(Sized(Bytes16(h.toUtf16(key))))
  {
    hide Bytes16, Var;
    var s := h.toUtf16(key);
    Assoc(buffer.Contents(), Var(2 * |s|), Bytes16(s));
    buffer.PushUint(2 * |s|);
    buffer.PushBytes(Bytes16(s));
  }

  method PushString(h: Host, buffer: Buffer, s: Str)
    requires buffer.Writable() && buffer.RoomFor(|Enc(Value.Text(Plain, h.toUtf16(s)))|)
    modifies buffer, buffer.data
    ensures buffer.Appended(Enc(Value.Text(Plain, h.toUtf16(s))))
  {
    ghost var start, sized := buffer.Contents(), Sized(Bytes16(h.toUtf16(s)));
    assert Enc(Value.Text(Plain, h.toUtf16(s))) == [Tags.STRING] + sized;
    hide Bytes16, Var, Sized, Enc, Payload;
    buffer.PushType(Tags.STRING);
    Assoc(start, [Tags.STRING], sized);
    PushMapKey(h, buffer, s);
  }

  lemma ScalarWritten(h: Host, r: Rt)
    ensures r.RUndefined? || r.RNull? ==> Written(h, r) == [Tags.NULL]
    ensures r.RInt? ==> Written(h, r) == [Tags.INT] + Var(Zig(r.i))
    ensures r.RDouble? ==> Written(h, r) == [Tags.DOUBLE] + BigEndian(r.bits, 8)
    ensures r.RBool? ==> Written(h, r) == [if r.b then Tags.TRUE else Tags.FALSE]
    ensures r.RString? ==> Written(h, r) == Enc(Value.Text(Plain, h.toUtf16(r.s)))
    ensures Hole(r) ==> Written(h, r) == []
  {
    hide Var, BigEndian, Zig, Bytes16;
    match r
    case RUndefined => assert Enc(Null) == [Tags.NULL];
    case RNull => assert Enc(Null) == [Tags.NULL];
    case RInt(i) => assert Enc(Int(i)) == [Tags.INT] + Var(Zig(i));
    case RDouble(bits) => assert Enc(Double(bits)) == [Tags.DOUBLE] + BigEndian(bits, 8);
    case RBool(b) => assert Enc(Bool(b)) == [if b then Tags.TRUE else Tags.FALSE];
    case _ =>
  }

  /** Appends exactly those bytes. */
  method PutValues(h: Host, buffer: Buffer, value: Rt)
    requires Countable(value) && buffer.Writable() && buffer.RoomFor(|Written(h, value)|)
    modifies buffer, buffer.data
    ensures buffer.Appended(Written(h, value))
    decreases value, 2
  {
    ScalarWritten(h, value);
    hide Var, Zig, BigEndian, Enc, Written, ItemsCountable, EntriesCountable;
    if value.RUndefined? || value.RNull? {
      buffer.PushTypeNull();
    } else if value.RInt? {
      buffer.PushTypeInt(value.i);
    } else if value.RDouble? {
      buffer.PushTypeDouble(value.bits);
    } else if value.RBool? {
      buffer.PushTypeBoolean(value.b);
    } else if value.RString? {
      PushString(h, buffer, value.s);
    } else if value.RArray? {
      PutArray(h, buffer, value.items);
    } else if value.RMap? {
      PutMap(h, buffer, value.entries);
    } else {
      assert buffer.Contents() + [] == buffer.Contents();
    }
  }

  method PutArray(h: Host, buffer: Buffer, items: seq<Rt>)
    requires |items| < 0x1_0000_0000 && ItemsCountable(items)
    requires buffer.Writable() && buffer.RoomFor(|Written(h, RArray(items))|)
    modifies buffer, buffer.data
    ensures buffer.Appended(Written(h, RArray(items)))
    decreases items, 1
  {
    ghost var start := buffer.Contents();
    assert Written(h, RArray(items)) == [Tags.ARRAY] + Var(|items|) + WrittenItems(h, items);
    hide Var, Written, WrittenItems, ItemsCountable;
    buffer.PushTypeArray(|items|);
    Assoc(start, [Tags.ARRAY] + Var(|items|), WrittenItems(h, items));
    PutItems(h, buffer, items);
  }

  method PutItems(h: Host, buffer: Buffer, items: seq<Rt>)
    requires ItemsCountable(items) && buffer.Writable() && buffer.RoomFor(|WrittenItems(h, items)|)
    modifies buffer, buffer.data
    ensures buffer.Appended(WrittenItems(h, items))
    decreases items, 0
  {
    hide Written, WrittenItems, ItemsCountable, Countable;
    ghost var start, all := buffer.Contents(), WrittenItems(h, items);
    NothingLeft(h, items, []);
    for i := 0 to |items|
      invariant buffer.Writable() && ItemsCountable(items[i..])
      invariant buffer.data == old(buffer.data) || fresh(buffer.data)
      invariant buffer.Contents() + WrittenItems(h, items[i..]) == start + all
    {
      ItemsFrom(h, items, i, buffer.Contents());
      PutValues(h, buffer, items[i]);
    }
  }

  method PutMap(h: Host, buffer: Buffer, entries: seq<Entry>)
    requires EntriesCountable(entries) && buffer.Writable() && buffer.RoomFor(|Written(h, RMap(entries))|)
    modifies buffer, buffer.data
    ensures buffer.Appended(Written(h, RMap(entries)))
    decreases entries, 1
  {
    ghost var start, n := buffer.Contents(), CountKept(entries);
    assert Written(h, RMap(entries)) == [Tags.MAP] + Var(n) + WrittenEntries(h, entries);
    hide Var, Written, WrittenEntries, EntriesCountable, CountKept;
    var skipped := CountSkipped(entries);
    buffer.PushTypeMap(|entries| - skipped);
    Assoc(start, [Tags.MAP] + Var(n), WrittenEntries(h, entries));
    PutEntries(h, buffer, entries);
  }

  method CountSkipped(entries: seq<Entry>) returns (skipped: nat)
    ensures skipped + CountKept(entries) == |entries|
  {
    skipped := 0;
    assert entries[0..] == entries;
    for i := 0 to |entries|
      invariant skipped + CountKept(entries) == i + CountKept(entries[i..])
    {
      assert entries[i..][1..] == entries[i + 1..];
      if Dropped(entries[i].value) {
        skipped := skipped + 1;
      }
    }
  }

  method PutEntries(h: Host, buffer: Buffer, entries: seq<Entry>)
    requires EntriesCountable(entries) && buffer.Writable() && buffer.RoomFor(|WrittenEntries(h, entries)|)
    modifies buffer, buffer.data
    ensures buffer.Appended(WrittenEntries(h, entries))
    decreases entries, 0
  {
    hide Written, WrittenEntries, EntriesCountable, Countable, Sized, Bytes16, Dropped;
    ghost var start, all := buffer.Contents(), WrittenEntries(h, entries);
    NothingLeft(h, [], entries);
    for i := 0 to |entries|
      invariant buffer.Writable() && EntriesCountable(entries[i..])
      invariant buffer.data == old(buffer.data) || fresh(buffer.data)
      invariant buffer.Contents() + WrittenEntries(h, entries[i..]) == start + all
    {
      EntriesFrom(h, entries, i, buffer.Contents());
      if Dropped(entries[i].value) {
        continue;
      }
      PushMapKey(h, buffer, entries[i].key);
      PutValues(h, buffer, entries[i].value);
    }
  }

  lemma NothingLeft(h: Host, items: seq<Rt>, entries: seq<Entry>)
    ensures items[0..] == items && entries[0..] == entries
    ensures ItemsCountable(items[|items|..]) && WrittenItems(h, items[|items|..]) == []
    ensures EntriesCountable(entries[|entries|..]) && WrittenEntries(h, entries[|entries|..]) == []
  {
  }

  lemma ItemsFrom(h: Host, items: seq<Rt>, i: nat, done: seq<u8>)
    requires i < |items| && ItemsCountable(items[i..])
    ensures Countable(items[i]) && ItemsCountable(items[i + 1..])
    ensures done + WrittenItems(h, items[i..]) == done + Written(h, items[i]) + WrittenItems(h, items[i + 1..])
  {
    assert items[i..][1..] == items[i + 1..];
    hide Written;
    Assoc(done, Written(h, items[i]), WrittenItems(h, items[i + 1..]));
  }

  lemma EntriesFrom(h: Host, entries: seq<Entry>, i: nat, done: seq<u8>)
    requires i < |entries| && EntriesCountable(entries[i..])
    ensures var e, rest := entries[i], entries[i + 1..];
      && EntriesCountable(rest) && Countable(e.value)
      && (Dropped(e.value) ==> WrittenEntries(h, entries[i..]) == WrittenEntries(h, rest))
      && (!Dropped(e.value) ==>
            done + WrittenEntries(h, entries[i..])
            == done + Sized(Bytes16(h.toUtf16(e.key))) + Written(h, e.value) + WrittenEntries(h, rest))
  {
    assert entries[i..][1..] == entries[i + 1..];
    var e, more := entries[i], WrittenEntries(h, entries[i + 1..]);
    if !Dropped(e.value) {
      hide Written, Sized, Bytes16;
      var key, v := Sized(Bytes16(h.toUtf16(e.key))), Written(h, e.value);
      assert WrittenEntries(h, entries[i..]) == key + v + more;
      Assoc4(done, key, v, more);
      Assoc(key, v, more);
    }
  }

  // ---- what is written is one value, or it is not ----

  /** When functions and objects occur in maps only, the bytes are those of the value. */
  lemma {:induction false} WritesTheValue(h: Host, r: Rt)
    requires Encodable(r)
    ensures Written(h, r) == Enc(ToValue(h, r))
    decreases r, 1
  {
    match r
    case RArray(items) =>
      WritesTheItems(h, items);
      hide EncItems, WrittenItems, ToItems;
      Assoc([Tags.ARRAY], Var(|items|), WrittenItems(h, items));
    case RMap(entries) =>
      WritesTheMembers(h, entries);
      hide EncMembers, WrittenEntries, ToMembers;
      Assoc([Tags.MAP], Var(CountKept(entries)), WrittenEntries(h, entries));
    case _ =>
  }

  lemma {:induction false} WritesTheItems(h: Host, items: seq<Rt>)
    requires ItemsEncodable(items)
    ensures WrittenItems(h, items) == EncItems(ToItems(h, items))
    decreases items, 0
  {
    if items != [] {
      var first, more := ToValue(h, items[0]), ToItems(h, items[1..]);
      WritesTheValue(h, items[0]);
      WritesTheItems(h, items[1..]);
      hide Written, Enc, ToValue;
      assert ([first] + more)[1..] == more;
    }
  }

  lemma {:induction false} WritesTheMembers(h: Host, entries: seq<Entry>)
    requires EntriesEncodable(entries)
    ensures WrittenEntries(h, entries) == EncMembers(ToMembers(h, entries))
    decreases entries, 0
  {
    if entries != [] {
      var e, more := entries[0], ToMembers(h, entries[1..]);
      WritesTheMembers(h, entries[1..]);
      if !Dropped(e.value) {
        WritesTheValue(h, e.value);
        var first := Member(h.toUtf16(e.key), ToValue(h, e.value));
        hide Written, Enc, ToValue, Sized, Bytes16;
        assert ([first] + more)[1..] == more && ([first] + more)[0] == first;
      }
    }
  }

  /** The value that was meant: a function or an object that no map drops takes the place of a null. */
  function Filled(h: Host, r: Rt): Value
    decreases r, 1
  {
    match r
    case RFunction => Null
    case RObject => Null
    case RArray(items) => Arr(FilledItems(h, items))
    case RMap(entries) => Obj(FilledMembers(h, entries))
    case _ => ToValue(h, r)
  }

  function FilledItems(h: Host, items: seq<Rt>): (vs: seq<Value>)
    ensures |vs| == |items|
    decreases items, 0
  {
    if items == [] then [] else [Filled(h, items[0])] + FilledItems(h, items[1..])
  }

  function FilledMembers(h: Host, entries: seq<Entry>): (ms: seq<Member>)
    ensures |ms| == CountKept(entries)
    decreases entries, 0
  {
    if entries == [] then []
    else
      var e, more := entries[0], FilledMembers(h, entries[1..]);
      if Carried(e.value) then [Member(h.toUtf16(e.key), Filled(h, e.value))] + more else more
  }

  lemma {:induction false} FilledIsValue(h: Host, r: Rt)
    requires Encodable(r)
    ensures Filled(h, r) == ToValue(h, r)
    decreases r, 1
  {
    match r
    case RArray(items) => FilledAreItems(h, items);
    case RMap(entries) => FilledAreMembers(h, entries);
    case _ =>
  }

  lemma {:induction false} FilledAreItems(h: Host, items: seq<Rt>)
    requires ItemsEncodable(items)
    ensures FilledItems(h, items) == ToItems(h, items)
    decreases items, 0
  {
    if items != [] {
      FilledIsValue(h, items[0]);
      FilledAreItems(h, items[1..]);
    }
  }

  lemma {:induction false} FilledAreMembers(h: Host, entries: seq<Entry>)
    requires EntriesEncodable(entries)
    ensures FilledMembers(h, entries) == ToMembers(h, entries)
    decreases entries, 0
  {
    if entries != [] {
      FilledAreMembers(h, entries[1..]);
      if !Dropped(entries[0].value) { FilledIsValue(h, entries[0].value); }
    }
  }

  // Every function and object that is not dropped leaves the bytes short of one.

  lemma {:induction false} FallsShort(h: Host, r: Rt)
    ensures |Written(h, r)| <= |Enc(Filled(h, r))|
    ensures |Written(h, r)| == |Enc(Filled(h, r))| <==> Encodable(r)
    decreases r, 1
  {
    match r
    case RArray(items) =>
      ItemsFallShort(h, items);
      hide EncItems, WrittenItems, FilledItems, ItemsEncodable, Var;
    case RMap(entries) =>
      EntriesFallShort(h, entries);
      hide EncMembers, WrittenEntries, FilledMembers, EntriesEncodable, Var;
    case _ =>
  }

  lemma {:induction false} ItemsFallShort(h: Host, items: seq<Rt>)
    ensures |WrittenItems(h, items)| <= |EncItems(FilledItems(h, items))|
    ensures |WrittenItems(h, items)| == |EncItems(FilledItems(h, items))| <==> ItemsEncodable(items)
    decreases items, 0
  {
    if items != [] {
      var first, more := Filled(h, items[0]), FilledItems(h, items[1..]);
      FallsShort(h, items[0]);
      ItemsFallShort(h, items[1..]);
      hide Written, Enc, Filled, Encodable;
      assert ([first] + more)[1..] == more;
    }
  }

  lemma {:induction false} EntriesFallShort(h: Host, entries: seq<Entry>)
    ensures |WrittenEntries(h, entries)| <= |EncMembers(FilledMembers(h, entries))|
    ensures |WrittenEntries(h, entries)| == |EncMembers(FilledMembers(h, entries))| <==> EntriesEncodable(entries)
    decreases entries, 0
  {
    if entries != [] {
      var e, more := entries[0], FilledMembers(h, entries[1..]);
      EntriesFallShort(h, entries[1..]);
      if !Dropped(e.value) {
        FallsShort(h, e.value);
        var first := Member(h.toUtf16(e.key), Filled(h, e.value));
        hide Written, Enc, Filled, Encodable, Bytes16, Sized;
        assert ([first] + more)[1..] == more && ([first] + more)[0] == first;
      }
    }
  }

  /**
   * For every runtime value: the bytes are the encoding of the value that was meant exactly when functions and objects
   * occur in maps only; otherwise they are fewer.
   */
  lemma WritesExactly(h: Host, r: Rt)
    ensures Written(h, r) == Enc(Filled(h, r)) <==> Encodable(r)
    ensures !Encodable(r) ==> |Written(h, r)| < |Enc(Filled(h, r))|
  {
    FallsShort(h, r);
    if Encodable(r) {
      WritesTheValue(h, r);
      FilledIsValue(h, r);
    }
    hide Written, Enc, Filled, Encodable;
  }

  predicate Hole(r: Rt) { r.RFunction? || r.RObject? }

  /** The elements that are written. */
  function Solid(items: seq<Rt>): seq<Rt> {
    if items == [] then [] else (if Hole(items[0]) then [] else [items[0]]) + Solid(items[1..])
  }

  lemma {:induction false} SolidWritten(h: Host, items: seq<Rt>)
    requires forall i :: 0 <= i < |items| ==> Hole(items[i]) || Encodable(items[i])
    ensures ItemsEncodable(Solid(items)) && WrittenItems(h, items) == EncItems(ToItems(h, Solid(items)))
    ensures |Solid(items)| <= |items|
    ensures |Solid(items)| == |items| <==> forall i :: 0 <= i < |items| ==> !Hole(items[i])
    decreases |items|
  {
    if items != [] {
      var rest := items[1..];
      assert forall i :: 0 <= i < |rest| ==> rest[i] == items[i + 1];
      assert forall i :: 0 < i < |items| ==> items[i] == rest[i - 1];
      SolidWritten(h, rest);
      if !Hole(items[0]) {
        WritesTheValue(h, items[0]);
        var vs, more := [items[0]] + Solid(rest), ToItems(h, Solid(rest));
        assert Solid(items) == vs && vs[1..] == Solid(rest) && vs[0] == items[0];
        assert ToItems(h, vs) == [ToValue(h, items[0])] + more;
        assert ([ToValue(h, items[0])] + more)[1..] == more;
        hide Written, Enc, ToValue, Hole;
      } else {
        assert Solid(items) == Solid(rest);
      }
    }
  }

  /**
   * An array of which every element is encodable, or a function or an object, is written as a WSON value, whatever its
   * value, exactly when it has no function and no object: with one, the header promises an element that does not come.
   */
  lemma HolesAreNoValue(h: Host, items: seq<Rt>)
    requires forall i :: 0 <= i < |items| ==> Hole(items[i]) || Encodable(items[i])
    ensures (exists v :: Written(h, RArray(items)) == Enc(v)) <==> forall i :: 0 <= i < |items| ==> !Hole(items[i])
  {
    SolidWritten(h, items);
    var ws := ToItems(h, Solid(items));
    if forall i :: 0 <= i < |items| ==> !Hole(items[i]) {
      assert Written(h, RArray(items)) == [Tags.ARRAY] + Var(|ws|) + EncItems(ws);
      Assoc([Tags.ARRAY], Var(|ws|), EncItems(ws));
      assert Written(h, RArray(items)) == Enc(Arr(ws));
    } else if v :| Written(h, RArray(items)) == Enc(v) {
      assert Enc(v) == [Tags.ARRAY] + Var(|items|) + EncItems(ws);
      hide Written, WrittenItems, ToItems, Solid, Hole;
      TooFewItems(v, |items|, ws);
    }
  }

  lemma ArrayInside(v: Value, count: seq<u8>, items: seq<u8>)
    requires Enc(v) == [Tags.ARRAY] + count + items
    ensures v.Arr? && Var(|v.items|) + EncItems(v.items) == count + items
  {
    Assoc([Tags.ARRAY], count, items);
    Cut([Tags.ARRAY], count + items);
    Cut([Tag(v)], Payload(v));
    assert Enc(v)[0] == Tag(v);
    hide Var, EncItems, EncMembers, BigEndian, Zig, Bytes16, Sized, Enc;
  }

  /** A header that counts more elements than follow is not the beginning of a value that ends with them. */
  lemma TooFewItems(v: Value, n: nat, ws: seq<Value>)
    requires Enc(v) == [Tags.ARRAY] + Var(n) + EncItems(ws)
    ensures n <= |ws|
  {
    ArrayInside(v, Var(n), EncItems(ws));
    hide *;
    VarPrefixFree(|v.items|, n, EncItems(v.items), EncItems(ws));
    if n > |ws| {
      var k := |ws|;
      EncItemsSplit(v.items, k);
      assert EncItems(ws) + [] == EncItems(ws);
      ItemsPrefixFree(v.items[..k], ws, EncItems(v.items[k..]), []);
    }
  }

  lemma {:induction false} EncItemsSplit(items: seq<Value>, k: nat)
    requires k <= |items|
    ensures EncItems(items) == EncItems(items[..k]) + EncItems(items[k..])
    decreases k
  {
    if k > 0 {
      EncItemsSplit(items[1..], k - 1);
      assert items[1..][..k - 1] == items[..k][1..] && items[1..][k - 1..] == items[k..];
      assert items[..k][0] == items[0];
      hide Enc;
      Assoc(Enc(items[0]), EncItems(items[..k][1..]), EncItems(items[k..]));
    } else {
      assert items[0..] == items && items[..0] == [];
      assert [] + EncItems(items) == EncItems(items);
    }
  }

  // ---- reading ----

  function FromValue(h: Host, v: Value): Rt
    decreases v, 1
  {
    match v
    case Null => RNull
    case Bool(b) => RBool(b)
    case Int(i) => RInt(i)
    case Long(l) => RDouble(h.doubleOfLong(l))
    case Float(bits) => RDouble(h.doubleOfFloat(bits))
    case Double(bits) => RDouble(bits)
    case Text(_, units) => RString(Text.Utf8(units))
    case Utf8(bytes) => RString(bytes)
    case Arr(items) => RArray(FromItems(h, items))
    case Obj(members) => RMap(InsertAll(h, [], members))
  }

  function FromItems(h: Host, items: seq<Value>): (rs: seq<Rt>)
    decreases items, 0
  {
    if items == [] then [] else [FromValue(h, items[0])] + FromItems(h, items[1..])
  }

  /** A key that is there already gets the new value; a new one comes last. */
  function Insert(entries: seq<Entry>, key: Str, value: Rt): seq<Entry>
    decreases |entries|
  {
    if entries == [] then [Entry(key, value)]
    else if entries[0].key == key then [Entry(key, value)] + entries[1..]
    else [entries[0]] + Insert(entries[1..], key, value)
  }

  function InsertAll(h: Host, entries: seq<Entry>, members: seq<Member>): seq<Entry>
    decreases members, 0
  {
    if members == [] then entries
    else InsertAll(h, Insert(entries, Text.Utf8(members[0].key), FromValue(h, members[0].value)), members[1..])
  }

  ghost predicate Readable(buffer: Buffer)
    reads buffer
  {
    buffer.Valid() && buffer.length == buffer.data.Length < 0x8000_0000
  }

  lemma TwiceAsInt(n: nat)
    requires n < 0x8000_0000
    ensures ToSigned32(Wrap32(2 * n)) == if n < 0x4000_0000 then 2 * n else 2 * n - 0x1_0000_0000
  {
  }

  /**
   * The text of the bytes, by way of an array of twice their number. The conversion stays inside that array, with its
   * terminator, exactly when the text is not empty and the size fits into an `int`.
   */
  method Wson16ToString(bytes: seq<u8>) returns (str: Str, inside: bool)
    requires |bytes| < 0x8000_0000
    ensures str == Text.Utf8(Units16(bytes))
    ensures |bytes| % 2 == 0 ==> inside == UnitsFit(Units16(bytes))
  {
    var units := Units16(bytes);
    Text.Utf8Bound(units);
    assert units == [] ==> Text.Utf8(units) == [];
    TwiceAsInt(|bytes|);
    hide Text.Utf8, Units16, Wrap32, ToSigned32;
    var decodeBuffer := new u8[|Text.Utf8(units)| + 1];
    var count := Converters.ToUtf8(units, decodeBuffer);
    inside := count + 1 <= ToSigned32(Wrap32(2 * |bytes|));
    str := decodeBuffer[..count];
  }

  /** No UTF-16 text in the value, key or string, is empty or too long for the array it is converted through. */
  predicate TextsFit(v: Value)
    decreases v, 1
  {
    match v
    case Text(_, units) => UnitsFit(units)
    case Arr(items) => ItemTextsFit(items)
    case Obj(members) => MemberTextsFit(members)
    case _ => true
  }

  predicate ItemTextsFit(items: seq<Value>)
    decreases items, 0
  {
    items != [] ==> TextsFit(items[0]) && ItemTextsFit(items[1..])
  }

  predicate MemberTextsFit(members: seq<Member>)
    decreases members, 0
  {
    members != [] ==> UnitsFit(members[0].key) && TextsFit(members[0].value) && MemberTextsFit(members[1..])
  }

  predicate UnitsFit(units: seq<u16>) { 0 < |units| < 0x2000_0000 }

  /**
   * Reads the value at the cursor, which ends exactly behind it; every conversion on the way stays inside its array
   * exactly when all texts fit.
   */
  method ConvertWson(h: Host, buffer: Buffer, ghost v: Value) returns (r: Rt, inside: bool)
    requires Readable(buffer) && buffer.Next(Enc(v))
    modifies buffer`position
    ensures Readable(buffer) && r == FromValue(h, v) && buffer.position == old(buffer.position) + |Enc(v)|
    ensures inside == TextsFit(v)
    decreases v, 1
  {
    hide Var, BigEndian, EncItems, EncMembers, Zig, Bytes16, Enc, Has, FromItems, InsertAll;
    hide ItemTextsFit, MemberTextsFit, Text.Utf8, UnitsFit;
    inside := true;
    TagThen(buffer.data[..], buffer.position, v);
    var type_ := buffer.NextType();
    if type_ == Tags.UINT8_STRING {
      var utf8 := NextChunk(buffer, v.bytes);
      return RString(utf8), true;
    } else if type_ == Tags.STRING || type_ == Tags.BIG_INT || type_ == Tags.BIG_DECIMAL {
      var bytes := NextChunk(buffer, Bytes16(v.units));
      UnitsOfBytes(v.units);
      var utf8;
      utf8, inside := Wson16ToString(bytes);
      return RString(utf8), inside;
    } else if type_ == Tags.ARRAY {
      CountThen(buffer.data[..], buffer.position, |v.items|, EncItems(v.items));
      r, inside := ReadArray(h, buffer, v.items);
      return;
    } else if type_ == Tags.MAP {
      CountThen(buffer.data[..], buffer.position, |v.members|, EncMembers(v.members));
      r, inside := ReadMap(h, buffer, v.members);
      return;
    } else if type_ == Tags.INT {
      var num := buffer.NextInt(v.i);
      return RInt(num), true;
    } else if type_ == Tags.TRUE {
      return RBool(true), true;
    } else if type_ == Tags.FALSE {
      return RBool(false), true;
    } else if type_ == Tags.DOUBLE {
      var num := buffer.NextUlong(v.bits64);
      return RDouble(num), true;
    } else if type_ == Tags.FLOAT {
      var num := buffer.NextFloat(v.bits32);
      return RDouble(h.doubleOfFloat(num)), true;
    } else if type_ == Tags.LONG {
      var num := buffer.NextLong(v.l);
      return RDouble(h.doubleOfLong(num)), true;
    }
    return RNull, true;
  }

  method ReadArray(h: Host, buffer: Buffer, ghost items: seq<Value>)
    returns (r: Rt, inside: bool)
    requires Readable(buffer) && buffer.Next(Var(|items|)) && |items| < 0x8000_0000
    requires Has(buffer.data[..], buffer.position + |Var(|items|)|, EncItems(items))
    modifies buffer`position
    ensures Readable(buffer) && r == RArray(FromItems(h, items)) && inside == ItemTextsFit(items)
    ensures buffer.position == old(buffer.position) + |Var(|items|)| + |EncItems(items)|
    decreases items, 0
  {
    hide Var, Has, Enc, Payload, Tag, EncItems, FromValue, FromItems, TextsFit, ItemTextsFit;
    ghost var d, end := buffer.data[..], buffer.position + |Var(|items|)| + |EncItems(items)|;
    var length := buffer.NextUint(|items|);
    NoMore(items, []);
    NoneToRead(h, items, []);
    var rs: seq<Rt> := [];
    inside := true;
    for i := 0 to length
      invariant Readable(buffer) && buffer.Next(EncItems(items[i..]))
      invariant buffer.position + |EncItems(items[i..])| == end
      invariant rs + FromItems(h, items[i..]) == FromItems(h, items)
      invariant (inside && ItemTextsFit(items[i..])) == ItemTextsFit(items)
    {
      FirstItem(d, buffer.position, items, i);
      TagThen(d, buffer.position, items[i]);
      ReadItemsFrom(h, items, i, rs);
      if buffer.position < buffer.length {
        var item, fits := ConvertWson(h, buffer, items[i]);
        rs := rs + [item];
        inside := inside && fits;
      } else {
        break;
      }
    }
    return RArray(rs), inside;
  }

  method ReadMap(h: Host, buffer: Buffer, ghost members: seq<Member>)
    returns (r: Rt, inside: bool)
    requires Readable(buffer) && buffer.Next(Var(|members|)) && |members| < 0x8000_0000
    requires Has(buffer.data[..], buffer.position + |Var(|members|)|, EncMembers(members))
    modifies buffer`position
    ensures Readable(buffer) && r == RMap(InsertAll(h, [], members)) && inside == MemberTextsFit(members)
    ensures buffer.position == old(buffer.position) + |Var(|members|)| + |EncMembers(members)|
    decreases members, 0
  {
    hide Var, Has, Enc, Payload, Tag, EncMembers, Bytes16, FromValue, InsertAll, Insert, Text.Utf8;
    hide TextsFit, MemberTextsFit, UnitsFit;
    ghost var d, end := buffer.data[..], buffer.position + |Var(|members|)| + |EncMembers(members)|;
    var length := buffer.NextUint(|members|);
    NoMore([], members);
    NoneToRead(h, [], members);
    var entries: seq<Entry> := [];
    inside := true;
    for i := 0 to length
      invariant Readable(buffer) && buffer.Next(EncMembers(members[i..]))
      invariant buffer.position + |EncMembers(members[i..])| == end
      invariant InsertAll(h, entries, members[i..]) == InsertAll(h, [], members)
      invariant (inside && MemberTextsFit(members[i..])) == MemberTextsFit(members)
    {
      ghost var m := members[i];
      FirstMember(d, buffer.position, members, i);
      ReadMembersFrom(h, members, i, entries);
      TagThen(d, buffer.position + |Sized(Bytes16(m.key))|, m.value);
      if buffer.position < buffer.length {
        var bytes := NextChunk(buffer, Bytes16(m.key));
        UnitsOfBytes(m.key);
        var name, keyFits := Wson16ToString(bytes);
        var value, fits := ConvertWson(h, buffer, m.value);
        entries := Insert(entries, name, value);
        inside := inside && keyFits && fits;
      } else {
        break;
      }
    }
    return RMap(entries), inside;
  }

  /** An empty string does not fit: its array has no byte for the terminator. */
  lemma EmptyStringLeaves(h: Host)
    requires DecodesUtf8(h)
    ensures !TextsFit(ToValue(h, RString([])))
  {
    assert Text.Rfc3629([]) == Some([]);
    assert Text.Rfc2781(h.toUtf16([])) == Some([]);
  }

  lemma NoneToRead(h: Host, items: seq<Value>, members: seq<Member>)
    ensures ItemTextsFit(items[|items|..]) && MemberTextsFit(members[|members|..])
    ensures FromItems(h, items[|items|..]) == []
    ensures forall e :: InsertAll(h, e, members[|members|..]) == e
  {
  }

  lemma ReadItemsFrom(h: Host, items: seq<Value>, i: nat, done: seq<Rt>)
    requires i < |items|
    ensures done + FromItems(h, items[i..]) == done + [FromValue(h, items[i])] + FromItems(h, items[i + 1..])
    ensures ItemTextsFit(items[i..]) == (TextsFit(items[i]) && ItemTextsFit(items[i + 1..]))
  {
    assert items[i..][1..] == items[i + 1..];
  }

  lemma ReadMembersFrom(h: Host, members: seq<Member>, i: nat, entries: seq<Entry>)
    requires i < |members|
    ensures InsertAll(h, entries, members[i..])
      == InsertAll(h, Insert(entries, Text.Utf8(members[i].key), FromValue(h, members[i].value)), members[i + 1..])
    ensures MemberTextsFit(members[i..])
      == (UnitsFit(members[i].key) && TextsFit(members[i].value) && MemberTextsFit(members[i + 1..]))
  {
    assert members[i..][1..] == members[i + 1..];
  }

  // ---- round trips ----

  /** The value without the entries of maps that are not written, and with undefined made null. */
  function Pruned(r: Rt): Rt
    decreases r, 1
  {
    match r
    case RUndefined => RNull
    case RArray(items) => RArray(PrunedItems(items))
    case RMap(entries) => RMap(PrunedEntries(entries))
    case _ => r
  }

  function PrunedItems(items: seq<Rt>): seq<Rt>
    decreases items, 0
  {
    if items == [] then [] else [Pruned(items[0])] + PrunedItems(items[1..])
  }

  function PrunedEntries(entries: seq<Entry>): seq<Entry>
    decreases entries, 0
  {
    if entries == [] then []
    else
      var e, more := entries[0], PrunedEntries(entries[1..]);
      if Dropped(e.value) then more else [Entry(e.key, Pruned(e.value))] + more
  }

  predicate HasKey(entries: seq<Entry>, key: Str) { exists i :: 0 <= i < |entries| && entries[i].key == key }

  /** The host decodes well-formed UTF-8 to UTF-16 for the same code points. */
  ghost predicate DecodesUtf8(h: Host) {
    forall s :: Text.Rfc3629(s).Some? ==> Text.Rfc2781(h.toUtf16(s)) == Text.Rfc3629(s)
  }

  /** Keys of maps are distinct, and every string that is written is well-formed UTF-8, at every level. */
  predicate Sane(r: Rt)
    decreases r, 1
  {
    match r
    case RString(s) => Text.Rfc3629(s).Some?
    case RArray(items) => ItemsSane(items)
    case RMap(entries) => EntriesSane(entries)
    case _ => true
  }

  predicate ItemsSane(items: seq<Rt>)
    decreases items, 0
  {
    items != [] ==> Sane(items[0]) && ItemsSane(items[1..])
  }

  predicate EntriesSane(entries: seq<Entry>)
    decreases entries, 0
  {
    entries != [] ==>
      && (Carried(entries[0].value) ==> Text.Rfc3629(entries[0].key).Some? && Sane(entries[0].value))
      && !HasKey(entries[1..], entries[0].key) && EntriesSane(entries[1..])
  }

  lemma StringBack(h: Host, s: Str)
    requires DecodesUtf8(h) && Text.Rfc3629(s).Some?
    ensures Text.Utf8(h.toUtf16(s)) == s
  {
    Text.ConvertsBack(s, h.toUtf16(s));
  }

  lemma {:induction false} InsertNew(entries: seq<Entry>, key: Str, value: Rt)
    requires !HasKey(entries, key)
    ensures Insert(entries, key, value) == entries + [Entry(key, value)]
    decreases |entries|
  {
    if entries != [] {
      assert entries[0].key != key;
      forall i | 0 <= i < |entries[1..]| ensures entries[1..][i].key != key { assert entries[i + 1].key != key; }
      InsertNew(entries[1..], key, value);
    }
  }

  /** Decoding what was encoded gives the value back, up to what maps drop. */
  lemma {:induction false} RuntimeRoundTrip(h: Host, r: Rt)
    requires Encodable(r) && DecodesUtf8(h) && Sane(r)
    ensures FromValue(h, ToValue(h, r)) == Pruned(r)
    decreases r, 1
  {
    hide DecodesUtf8, Text.Rfc3629, Text.Utf8, InsertAll, FromItems, ToItems, ToMembers, PrunedItems, PrunedEntries;
    match r
    case RString(s) => StringBack(h, s);
    case RArray(items) => ItemsRoundTrip(h, items);
    case RMap(entries) =>
      EntriesRoundTrip(h, entries, []);
      assert [] + PrunedEntries(entries) == PrunedEntries(entries);
    case _ =>
  }

  lemma {:induction false} ItemsRoundTrip(h: Host, items: seq<Rt>)
    requires ItemsEncodable(items) && DecodesUtf8(h) && ItemsSane(items)
    ensures FromItems(h, ToItems(h, items)) == PrunedItems(items)
    decreases items, 0
  {
    if items != [] {
      var first, more := ToValue(h, items[0]), ToItems(h, items[1..]);
      assert ([first] + more)[1..] == more;
      RuntimeRoundTrip(h, items[0]);
      ItemsRoundTrip(h, items[1..]);
    }
  }

  lemma {:induction false} EntriesRoundTrip(h: Host, entries: seq<Entry>, done: seq<Entry>)
    requires EntriesEncodable(entries) && DecodesUtf8(h) && EntriesSane(entries)
    requires forall i :: 0 <= i < |entries| ==> !HasKey(done, entries[i].key)
    ensures InsertAll(h, done, ToMembers(h, entries)) == done + PrunedEntries(entries)
    decreases entries, 0
  {
    if entries != [] {
      var e, rest := entries[0], entries[1..];
      assert forall i :: 0 <= i < |rest| ==> rest[i] == entries[i + 1];
      if Dropped(e.value) {
        EntriesRoundTrip(h, rest, done);
      } else {
        var first, more := Member(h.toUtf16(e.key), ToValue(h, e.value)), ToMembers(h, rest);
        assert ([first] + more)[1..] == more;
        RuntimeRoundTrip(h, e.value);
        StringBack(h, e.key);
        InsertNew(done, e.key, Pruned(e.value));
        var done' := done + [Entry(e.key, Pruned(e.value))];
        assert InsertAll(h, done, [first] + more) == InsertAll(h, done', more);
        forall i | 0 <= i < |rest| ensures !HasKey(done', rest[i].key) {
          assert rest[i].key != e.key;
          assert !HasKey(done, entries[i + 1].key);
        }
        EntriesRoundTrip(h, rest, done');
        Assoc(done, [Entry(e.key, Pruned(e.value))], PrunedEntries(rest));
      }
    }
  }

  // ---- what comes back, by the constructors of the values alone ----

  /**
   * `back` is what should come back for `sent`: the same int, double, bool or string, null for null and undefined, an
   * array of the same length with every element as it should be, and a map with exactly the carried entries, in order,
   * under their keys and with their values as they should be.
   */
  predicate ComesBack(sent: Rt, back: Rt)
    decreases sent, 1
  {
    match sent
    case RUndefined => back == RNull
    case RNull => back == RNull
    case RInt(i) => back == RInt(i)
    case RDouble(bits) => back == RDouble(bits)
    case RBool(b) => back == RBool(b)
    case RString(s) => back == RString(s)
    case RArray(items) => back.RArray? && ItemsComeBack(items, back.items)
    case RMap(entries) => back.RMap? && EntriesComeBack(entries, back.entries)
    case _ => false
  }

  predicate ItemsComeBack(sent: seq<Rt>, back: seq<Rt>)
    decreases sent, 0
  {
    |sent| == |back| && (sent != [] ==> ComesBack(sent[0], back[0]) && ItemsComeBack(sent[1..], back[1..]))
  }

  predicate EntriesComeBack(sent: seq<Entry>, back: seq<Entry>)
    decreases sent, 0
  {
    if sent == [] then back == []
    else if Carried(sent[0].value) then
      && back != [] && back[0].key == sent[0].key && ComesBack(sent[0].value, back[0].value)
      && EntriesComeBack(sent[1..], back[1..])
    else EntriesComeBack(sent[1..], back)
  }

  lemma {:induction false} PrunedComesBack(r: Rt)
    requires Encodable(r)
    ensures ComesBack(r, Pruned(r))
    decreases r, 1
  {
    match r
    case RArray(items) => PrunedItemsComeBack(items);
    case RMap(entries) => PrunedEntriesComeBack(entries);
    case _ =>
  }

  lemma {:induction false} PrunedItemsComeBack(items: seq<Rt>)
    requires ItemsEncodable(items)
    ensures ItemsComeBack(items, PrunedItems(items))
    decreases items, 0
  {
    if items != [] {
      PrunedComesBack(items[0]);
      PrunedItemsComeBack(items[1..]);
      assert PrunedItems(items)[1..] == PrunedItems(items[1..]);
      hide ComesBack, Pruned, Encodable;
    }
  }

  lemma {:induction false} PrunedEntriesComeBack(entries: seq<Entry>)
    requires EntriesEncodable(entries)
    ensures EntriesComeBack(entries, PrunedEntries(entries))
    decreases entries, 0
  {
    if entries != [] {
      var e, more := entries[0], PrunedEntries(entries[1..]);
      PrunedEntriesComeBack(entries[1..]);
      if Carried(e.value) {
        PrunedComesBack(e.value);
        var first := Entry(e.key, Pruned(e.value));
        hide ComesBack, Pruned, Encodable;
        assert PrunedEntries(entries) == [first] + more && ([first] + more)[1..] == more
          && ([first] + more)[0] == first;
      }
    }
  }

  /** What was sent comes back as it should, for every encodable and sane value. */
  lemma SentComesBack(h: Host, r: Rt)
    requires Encodable(r) && DecodesUtf8(h) && Sane(r)
    ensures ComesBack(r, FromValue(h, ToValue(h, r)))
  {
    RuntimeRoundTrip(h, r);
    PrunedComesBack(r);
  }

  lemma {:induction false} EntryCarried(sent: seq<Entry>, back: seq<Entry>, i: nat)
    requires EntriesComeBack(sent, back) && i < |sent|
    requires forall j, k :: 0 <= j < k < |sent| ==> sent[j].key != sent[k].key
    ensures HasKey(back, sent[i].key) <==> Carried(sent[i].value)
    ensures forall j :: 0 <= j < |back| && back[j].key == sent[i].key ==> ComesBack(sent[i].value, back[j].value)
    ensures forall j :: 0 <= j < |back| ==> exists k :: 0 <= k < |sent| && sent[k].key == back[j].key
    decreases |sent|
  {
    var rest := sent[1..];
    assert forall j :: 0 <= j < |rest| ==> rest[j] == sent[j + 1];
    var more := if Carried(sent[0].value) then back[1..] else back;
    if rest != [] {
      EntryCarried(rest, more, if i > 0 then i - 1 else 0);
    }
    hide ComesBack, Carried;
    KeysBelong(rest, more);
    assert forall k :: 0 <= k < |rest| ==> sent[k + 1].key == rest[k].key;
    if more != back {
      assert forall j :: 0 < j < |back| ==> back[j] == more[j - 1];
      assert HasKey(back, back[0].key);
      if HasKey(more, sent[i].key) {
        var j :| 0 <= j < |more| && more[j].key == sent[i].key;
        assert back[j + 1].key == sent[i].key;
      }
    }
  }

  lemma {:induction false} SaneDistinct(entries: seq<Entry>)
    requires EntriesSane(entries)
    ensures forall j, k :: 0 <= j < k < |entries| ==> entries[j].key != entries[k].key
    decreases |entries|
  {
    if entries != [] {
      var rest := entries[1..];
      SaneDistinct(rest);
      assert forall j :: 0 < j < |entries| ==> entries[j] == rest[j - 1];
    }
  }

  /**
   * Of every entry of a map that is sent: its key comes back if and only if its value is an int, a double, a bool, a
   * string, an array or a map, and the value there is as it should be; and no other key comes back.
   */
  lemma MapComesBack(h: Host, entries: seq<Entry>, i: nat)
    requires Encodable(RMap(entries)) && DecodesUtf8(h) && Sane(RMap(entries)) && i < |entries|
    ensures var t := FromValue(h, ToValue(h, RMap(entries)));
      && t.RMap? && (HasKey(t.entries, entries[i].key) <==> Carried(entries[i].value))
      && (forall j :: 0 <= j < |t.entries| && t.entries[j].key == entries[i].key ==>
            ComesBack(entries[i].value, t.entries[j].value))
      && (forall j :: 0 <= j < |t.entries| ==> HasKey(entries, t.entries[j].key))
  {
    SentComesBack(h, RMap(entries));
    SaneDistinct(entries);
    EntryCarried(entries, FromValue(h, ToValue(h, RMap(entries))).entries, i);
    hide FromValue, ToValue, Encodable, DecodesUtf8, Sane;
  }

  lemma {:induction false} KeysBelong(sent: seq<Entry>, back: seq<Entry>)
    requires EntriesComeBack(sent, back)
    ensures forall j :: 0 <= j < |back| ==> exists k :: 0 <= k < |sent| && sent[k].key == back[j].key
    decreases |sent|
  {
    if sent != [] {
      var rest, more := sent[1..], if Carried(sent[0].value) then back[1..] else back;
      KeysBelong(rest, more);
      hide ComesBack, Carried;
      forall j | 0 <= j < |back| ensures exists k :: 0 <= k < |sent| && sent[k].key == back[j].key {
        if more == back || j > 0 {
          var j' := if more == back then j else j - 1;
          assert more[j'] == back[j];
          var k :| 0 <= k < |rest| && rest[k].key == more[j'].key;
          assert sent[k + 1].key == back[j].key;
        }
      }
    }
  }

  /** What comes back encodes to the same value, hence to the same bytes. */
  lemma {:induction false} EncodeAgain(h: Host, r: Rt)
    requires Encodable(r)
    ensures Encodable(Pruned(r)) && ToValue(h, Pruned(r)) == ToValue(h, r)
    ensures Dropped(Pruned(r)) == Dropped(r)
    decreases r, 1
  {
    match r
    case RArray(items) => ItemsAgain(h, items);
    case RMap(entries) => EntriesAgain(h, entries);
    case _ =>
  }

  lemma {:induction false} ItemsAgain(h: Host, items: seq<Rt>)
    requires ItemsEncodable(items)
    ensures ItemsEncodable(PrunedItems(items)) && ToItems(h, PrunedItems(items)) == ToItems(h, items)
    decreases items, 0
  {
    if items != [] {
      EncodeAgain(h, items[0]);
      ItemsAgain(h, items[1..]);
      assert PrunedItems(items)[1..] == PrunedItems(items[1..]);
    }
  }

  lemma {:induction false} EntriesAgain(h: Host, entries: seq<Entry>)
    requires EntriesEncodable(entries)
    ensures EntriesEncodable(PrunedEntries(entries)) && ToMembers(h, PrunedEntries(entries)) == ToMembers(h, entries)
    decreases entries, 0
  {
    if entries != [] {
      var e, more := entries[0], PrunedEntries(entries[1..]);
      EntriesAgain(h, entries[1..]);
      if !Dropped(e.value) {
        EncodeAgain(h, e.value);
        var first := Entry(e.key, Pruned(e.value));
        assert PrunedEntries(entries) == [first] + more && ([first] + more)[1..] == more
          && ([first] + more)[0] == first;
      }
    }
  }

  /** Encoding, decoding and encoding again gives the bytes of the first encoding. */
  lemma SameBytes(h: Host, r: Rt)
    requires Encodable(r) && DecodesUtf8(h) && Sane(r)
    ensures var back := FromValue(h, ToValue(h, r));
      Encodable(back) && Written(h, back) == Written(h, r)
  {
    RuntimeRoundTrip(h, r);
    EncodeAgain(h, r);
    WritesTheValue(h, r);
    WritesTheValue(h, Pruned(r));
  }
}
