/** What the printer of wson_parser.cpp writes, a reader of RFC 8259 reads back. */
module JsonRoundTrip {
  import opened Words
  import opened Seqs
  import opened Values
  import opened Text
  import opened JsonText
  import opened JsonReader

  // ---- strings ----

  /** The control characters that have no letter to follow a backslash, in section 7 of RFC 8259. */
  predicate BareControl(c: u16) { c < 0x20 && c !in [0x08, 0x09, 0x0A, 0x0C, 0x0D] }

  predicate NoBareControl(units: seq<u16>) { forall c :: c in units ==> !BareControl(c) }

  /** A text that JSON in UTF-8 can carry as it is: well-formed UTF-16 without bare control characters. */
  predicate Presentable(units: seq<u16>) { NoBareControl(units) && Rfc2781(units).Some? }

  lemma CharStart(cp: u32)
    requires cp < 0x20_0000
    ensures cp >= 0x80 ==> forall i :: 0 <= i < |Char(cp)| ==> Char(cp)[i] >= 0x80
    ensures cp < 0x80 ==> Char(cp) == [cp]
  {
  }

  /** One printed unit is read back, unless the reader is strict and it is a bare control character or a surrogate. */
  lemma CharacterReads(c: u16, rest: seq<u8>, strict: bool)
    ensures ReadCharacter(Escaped(c) + rest, strict)
      == if strict && (BareControl(c) || Surrogate(c)) then None else Some(([c], |Escaped(c)|))
    ensures (Escaped(c) + rest)[0] != QUOTE
  {
    var t := Escaped(c) + rest;
    assert t[0] == Escaped(c)[0];
    if |Escaped(c)| >= 2 { assert t[1] == Escaped(c)[1]; }
    CharStart(c);
    HeadOfChar(c, rest);
    LengthOfChar(c, rest);
    hide Head, Char, CharLength;
  }

  lemma PairReads(high: u16, low: u16, rest: seq<u8>, strict: bool)
    requires IsHigh(high) && IsLow(low)
    ensures var c := Char(ToCodePoint(high, low));
      && ReadCharacter(c + rest, strict) == Some(([high, low], |c|))
      && (c + rest)[0] != QUOTE
  {
    hide ToCodePoint, Head, Char, UnitsOf, CharLength;
    CodePointOfPair(high, low);
    var cp := ToCodePoint(high, low);
    CharStart(cp);
    HeadOfChar(cp, rest);
    LengthOfChar(cp, rest);
    UnitsOfPair(high, low);
    assert (Char(cp) + rest)[0] == Char(cp)[0];
  }

  lemma CharactersStep(t: seq<u8>, strict: bool)
    requires t != [] && t[0] != QUOTE
    ensures ReadCharacter(t, strict).None? ==> ReadCharacters(t, strict) == Bad
    ensures ReadCharacter(t, strict).Some? ==>
      var (units, k) := ReadCharacter(t, strict).value;
      && (ReadCharacters(t[k..], strict).Bad? ==> ReadCharacters(t, strict).Bad?)
      && (ReadCharacters(t[k..], strict).Good? ==>
            ReadCharacters(t, strict)
              == Good(units + ReadCharacters(t[k..], strict).value, ReadCharacters(t[k..], strict).rest))
  {
    hide ReadCharacter;
  }

  lemma CleanParts(units: seq<u16>, n: nat)
    requires units != [] && n == if PairAhead(units) then 2 else 1
    ensures Presentable(units)
      == ((n == 2 || !(BareControl(units[0]) || Surrogate(units[0]))) && Presentable(units[n..]))
    ensures units == (if n == 2 then [units[0], units[1]] else [units[0]]) + units[n..]
  {
    assert units == units[..n] + units[n..];
    assert NoBareControl(units) == (NoBareControl(units[..n]) && NoBareControl(units[n..]));
  }

  /**
   * The inside of a quoted text is undone by a string reader up to the closing quote, whatever follows it; the reader
   * of RFC 8259 fails exactly on the texts that have a bare control character or a surrogate without its other half.
   */
  lemma {:induction false} InsideReads(units: seq<u16>, rest: seq<u8>, strict: bool)
    ensures ReadCharacters(Inside(units) + ([QUOTE] + rest), strict)
      == if strict && !Presentable(units) then Bad else Good(units, rest)
    decreases |units|
  {
    var close := [QUOTE] + rest;
    var t := Inside(units) + close;
    if units == [] {
      assert t == close;
    } else {
      var pair := PairAhead(units);
      var n := if pair then 2 else 1;
      var piece := if pair then Char(ToCodePoint(units[0], units[1])) else Escaped(units[0]);
      var after := Inside(units[n..]) + close;
      assert t == piece + after by { Assoc(piece, Inside(units[n..]), close); }
      if pair { PairReads(units[0], units[1], after, strict); } else { CharacterReads(units[0], after, strict); }
      CleanParts(units, n);
      InsideReads(units[n..], rest, strict);
      hide *;
      Cut(piece, after);
      CharactersStep(t, strict);
    }
  }

  /** A whole quoted text is undone by unquoting: for every 16-bit sequence, whatever its units. */
  lemma QuotedReads(units: seq<u16>, rest: seq<u8>)
    ensures (Quoted(units) + rest)[0] == QUOTE
    ensures ReadCharacters((Quoted(units) + rest)[1..], false) == Good(units, rest)
    ensures ReadCharacters((Quoted(units) + rest)[1..], true) == if Presentable(units) then Good(units, rest) else Bad
  {
    assert (Quoted(units) + rest)[1..] == Inside(units) + ([QUOTE] + rest);
    InsideReads(units, rest, false);
    InsideReads(units, rest, true);
  }

  /** The first quote that no backslash precedes, found byte by byte without decoding anything. */
  function ClosingQuote(t: seq<u8>): nat {
    if t == [] || t[0] == QUOTE then 0
    else if t[0] == BACKSLASH && |t| >= 2 then 2 + ClosingQuote(t[2..])
    else 1 + ClosingQuote(t[1..])
  }

  lemma {:induction false} PassOver(piece: seq<u8>, t: seq<u8>)
    requires forall i :: 0 <= i < |piece| ==> piece[i] != QUOTE && piece[i] != BACKSLASH
    ensures ClosingQuote(piece + t) == |piece| + ClosingQuote(t)
    decreases |piece|
  {
    if piece == [] {
      assert piece + t == t;
    } else {
      assert (piece + t)[1..] == piece[1..] + t && (piece + t)[0] == piece[0];
      PassOver(piece[1..], t);
    }
  }

  lemma PassOverCharacter(c: u16, t: seq<u8>)
    ensures ClosingQuote(Escaped(c) + t) == |Escaped(c)| + ClosingQuote(t)
  {
    var e := Escaped(c);
    CharStart(c);
    if e[0] == BACKSLASH {
      assert (e + t)[2..] == t && (e + t)[0] == BACKSLASH;
    } else {
      PassOver(e, t);
    }
  }

  /** A quoted text is self-delimiting: inside it no quote stands bare, so scanning ends at its own last byte. */
  lemma {:induction false} SelfDelimiting(units: seq<u16>, rest: seq<u8>)
    ensures 1 + ClosingQuote((Quoted(units) + rest)[1..]) == |Quoted(units)| - 1
  {
    assert (Quoted(units) + rest)[1..] == Inside(units) + ([QUOTE] + rest);
    InsideDelimited(units, rest);
  }

  lemma {:induction false} InsideDelimited(units: seq<u16>, rest: seq<u8>)
    ensures ClosingQuote(Inside(units) + ([QUOTE] + rest)) == |Inside(units)|
    decreases |units|
  {
    var close := [QUOTE] + rest;
    if units == [] {
      assert Inside(units) + close == close;
    } else if PairAhead(units) {
      var cp := ToCodePoint(units[0], units[1]);
      CodePointOfPair(units[0], units[1]);
      CharStart(cp);
      Assoc(Char(cp), Inside(units[2..]), close);
      PassOver(Char(cp), Inside(units[2..]) + close);
      InsideDelimited(units[2..], rest);
    } else {
      Assoc(Escaped(units[0]), Inside(units[1..]), close);
      PassOverCharacter(units[0], Inside(units[1..]) + close);
      InsideDelimited(units[1..], rest);
    }
  }

  // ---- no bare control character ----

  lemma EscapedVisible(c: u16)
    ensures (exists i :: 0 <= i < |Escaped(c)| && Escaped(c)[i] < 0x20) <==> BareControl(c)
  {
    CharStart(c);
    var e := Escaped(c);
    if c == QUOTE || c == BACKSLASH || ShortEscape(c) != 0 {
      assert e[0] >= 0x20 && e[1] >= 0x20 && |e| == 2;
    } else if c < 0x20 {
      assert e[0] == c;
    }
  }

  predicate Visible(bs: seq<u8>) { forall i :: 0 <= i < |bs| ==> bs[i] >= 0x20 }

  lemma VisibleParts(a: seq<u8>, b: seq<u8>)
    ensures Visible(a + b) <==> Visible(a) && Visible(b)
  {
    if Visible(a + b) {
      assert forall i :: 0 <= i < |a| ==> (a + b)[i] == a[i];
      assert forall i :: 0 <= i < |b| ==> (a + b)[|a| + i] == b[i];
    }
  }

  lemma {:induction false} InsideVisible(units: seq<u16>)
    ensures Visible(Inside(units)) <==> NoBareControl(units)
    decreases |units|
  {
    if units != [] {
      var pair := PairAhead(units);
      var n := if pair then 2 else 1;
      var piece := if pair then Char(ToCodePoint(units[0], units[1])) else Escaped(units[0]);
      if pair {
        CodePointOfPair(units[0], units[1]);
        CharStart(ToCodePoint(units[0], units[1]));
        assert !BareControl(units[0]) && !BareControl(units[1]);
      } else {
        EscapedVisible(units[0]);
      }
      assert Visible(piece) <==> (pair || !BareControl(units[0]));
      assert Inside(units) == piece + Inside(units[n..]);
      assert units == units[..n] + units[n..];
      assert NoBareControl(units) == (NoBareControl(units[..n]) && NoBareControl(units[n..]));
      assert NoBareControl(units[..n]) == (pair || !BareControl(units[0]));
      hide Inside, Escaped, Char, ToCodePoint, Visible, BareControl, NoBareControl;
      VisibleParts(piece, Inside(units[n..]));
      InsideVisible(units[n..]);
    }
  }

  /** The quoted form has no byte below 0x20 exactly when the text has no control character without a letter. */
  lemma QuotedVisible(units: seq<u16>)
    ensures Visible(Quoted(units)) <==> NoBareControl(units)
  {
    InsideVisible(units);
    hide Inside, NoBareControl;
    VisibleParts([QUOTE] + Inside(units), [QUOTE]);
    VisibleParts([QUOTE], Inside(units));
  }

  // ---- numbers ----

  predicate AllDigits(ds: seq<u8>) { forall i :: 0 <= i < |ds| ==> IsDigit(ds[i]) }

  lemma {:induction false} DigitsOfNumber(n: nat)
    ensures AllDigits(Digits(n)) && DigitsValue(Digits(n)) == n
    ensures Digits(n)[0] == 0x30 ==> |Digits(n)| == 1 && n == 0
  {
    if n >= 10 {
      DigitsOfNumber(n / 10);
      var ds := Digits(n);
      assert ds[..|ds| - 1] == Digits(n / 10) && ds[0] == Digits(n / 10)[0];
    } else {
      assert DigitsValue(Digits(n)[..0]) == 0;
    }
  }

  lemma {:induction false} RunOfDigits(ds: seq<u8>, rest: seq<u8>)
    requires AllDigits(ds) && (rest == [] || !IsDigit(rest[0]))
    ensures DigitRun(ds + rest) == |ds|
    decreases |ds|
  {
    if ds == [] {
      assert ds + rest == rest;
    } else {
      assert (ds + rest)[1..] == ds[1..] + rest && (ds + rest)[0] == ds[0];
      RunOfDigits(ds[1..], rest);
    }
  }

  lemma UnsignedReads(m: nat, rest: seq<u8>)
    requires rest == [] || !IsDigit(rest[0])
    ensures var t := Digits(m) + rest;
      && IsDigit(t[0]) && DigitRun(t) == |Digits(m)| && t[..|Digits(m)|] == Digits(m) && t[|Digits(m)|..] == rest
      && (t[0] == 0x30 ==> |Digits(m)| == 1)
  {
    var ds := Digits(m);
    DigitsOfNumber(m);
    RunOfDigits(ds, rest);
    Cut(ds, rest);
    hide Digits, DigitRun;
    assert (ds + rest)[0] == ds[0];
  }

  lemma DecimalReads(n: int, rest: seq<u8>)
    requires rest == [] || !IsDigit(rest[0])
    ensures ReadInteger(Decimal(n) + rest) == Good(n, rest)
    ensures var b := (Decimal(n) + rest)[0]; b == MINUS || IsDigit(b)
  {
    var m: nat := if n < 0 then -n else n;
    UnsignedReads(m, rest);
    DigitsOfNumber(m);
    hide Digits, DigitRun, DigitsValue;
    if n < 0 {
      Assoc([MINUS], Digits(m), rest);
      Cut([MINUS], Digits(m) + rest);
    }
  }

  // ---- values ----

  /** The trees JSON can carry: no floating-point numbers and no 8-bit strings, which are printed without quotes. */
  predicate Printable(v: Value)
    decreases v, 1
  {
    match v
    case Float(_) => false
    case Double(_) => false
    case Utf8(_) => false
    case Arr(items) => AllPrintable(items)
    case Obj(members) => MembersPrintable(members)
    case _ => true
  }

  predicate AllPrintable(items: seq<Value>)
    decreases items, 0
  {
    items != [] ==> Printable(items[0]) && AllPrintable(items[1..])
  }

  predicate MembersPrintable(members: seq<Member>)
    decreases members, 0
  {
    members != [] ==> Printable(members[0].value) && MembersPrintable(members[1..])
  }

  /** Every text in the tree, key or string, is one JSON can carry. */
  predicate Clean(v: Value)
    decreases v, 1
  {
    match v
    case Text(_, units) => Presentable(units)
    case Arr(items) => AllClean(items)
    case Obj(members) => MembersClean(members)
    case _ => true
  }

  predicate AllClean(items: seq<Value>)
    decreases items, 0
  {
    items != [] ==> Clean(items[0]) && AllClean(items[1..])
  }

  predicate MembersClean(members: seq<Member>)
    decreases members, 0
  {
    members != [] ==> Presentable(members[0].key) && Clean(members[0].value) && MembersClean(members[1..])
  }

  /** The JSON value a tree stands for: null becomes the empty string, and all integers are numbers. */
  function Meaning(v: Value): Json
    requires Printable(v)
    decreases v, 1
  {
    match v
    case Null => JString([])
    case Bool(b) => JBool(b)
    case Int(i) => JNumber(i)
    case Long(l) => JNumber(l)
    case Text(_, units) => JString(units)
    case Arr(items) => JArray(MeaningItems(items))
    case Obj(members) => JObject(MeaningMembers(members))
  }

  function MeaningItems(items: seq<Value>): (r: seq<Json>)
    requires AllPrintable(items)
    decreases items, 0
  {
    if items == [] then [] else [Meaning(items[0])] + MeaningItems(items[1..])
  }

  function MeaningMembers(members: seq<Member>): (r: seq<JMember>)
    requires MembersPrintable(members)
    decreases members, 0
  {
    if members == [] then []
    else [JMember(members[0].key, Meaning(members[0].value))] + MeaningMembers(members[1..])
  }

  /** What can follow a value inside a JSON text. */
  predicate Ends(rest: seq<u8>) { rest == [] || rest[0] in [COMMA, CLOSE_ARRAY, CLOSE_OBJECT] }

  lemma PrintStart(f: NumberFormat, v: Value)
    requires Printable(v)
    ensures Print(f, v) != [] && !IsSpace(Print(f, v)[0])
    ensures Print(f, v)[0] != CLOSE_ARRAY && Print(f, v)[0] != CLOSE_OBJECT
  {
    match v
    case Int(i) => DecimalReads(i, []); assert Decimal(i) + [] == Decimal(i);
    case Long(l) => DecimalReads(l, []); assert Decimal(l) + [] == Decimal(l);
    case _ =>
  }

  // One step of the reader each, on a text of which only the first part matters.

  lemma ItemsStep(t: seq<u8>, after: seq<u8>)
    ensures ReadValue(t).Bad? ==> ReadItems(t).Bad?
    ensures ReadValue(t).Good? && ReadValue(t).rest == [CLOSE_ARRAY] + after ==>
      ReadItems(t) == Good([ReadValue(t).value], after)
    ensures ReadValue(t).Good? && ReadValue(t).rest == [COMMA] + after ==>
      match ReadItems(after)
      case Bad => ReadItems(t).Bad?
      case Good(more, rest) => ReadItems(t) == Good([ReadValue(t).value] + more, rest)
  {
    hide ReadValue;
    Cut([CLOSE_ARRAY], after);
    Cut([COMMA], after);
  }

  lemma MembersStep(t: seq<u8>, key: seq<u16>, value: seq<u8>, after: seq<u8>)
    requires ReadKey(t) == Good(key, value)
    ensures ReadValue(value).Bad? ==> ReadMembers(t).Bad?
    ensures ReadValue(value).Good? && ReadValue(value).rest == [CLOSE_OBJECT] + after ==>
      ReadMembers(t) == Good([JMember(key, ReadValue(value).value)], after)
    ensures ReadValue(value).Good? && ReadValue(value).rest == [COMMA] + after ==>
      match ReadMembers(after)
      case Bad => ReadMembers(t).Bad?
      case Good(more, rest) => ReadMembers(t) == Good([JMember(key, ReadValue(value).value)] + more, rest)
  {
    hide ReadValue, ReadKey;
    Cut([CLOSE_OBJECT], after);
    Cut([COMMA], after);
  }

  lemma KeyReads(key: seq<u16>, after: seq<u8>)
    ensures ReadKey(Quoted(key) + ([COLON] + after)) == if Presentable(key) then Good(key, after) else Bad
  {
    QuotedReads(key, [COLON] + after);
    Cut([COLON], after);
    hide Quoted, ReadCharacters, Presentable;
  }

  lemma StringReads(units: seq<u16>, rest: seq<u8>)
    ensures ReadValue(Quoted(units) + rest) == if Presentable(units) then Good(JString(units), rest) else Bad
  {
    QuotedReads(units, rest);
    var t := Quoted(units) + rest;
    assert t != [] && SkipSpace(t) == t;
    hide Quoted, ReadCharacters, Presentable;
  }

  lemma NumberReads(n: int, rest: seq<u8>)
    requires Ends(rest)
    ensures ReadValue(Decimal(n) + rest) == Good(JNumber(n), rest)
  {
    DecimalReads(n, rest);
    hide Decimal, ReadInteger;
  }

  lemma ArrayReads(inner: seq<u8>)
    ensures inner != [] && inner[0] == CLOSE_ARRAY ==> ReadValue([OPEN_ARRAY] + inner) == Good(JArray([]), inner[1..])
    ensures inner != [] && inner[0] != CLOSE_ARRAY && !IsSpace(inner[0]) ==>
      match ReadItems(inner)
      case Bad => ReadValue([OPEN_ARRAY] + inner).Bad?
      case Good(items, rest) => ReadValue([OPEN_ARRAY] + inner) == Good(JArray(items), rest)
  {
    Cut([OPEN_ARRAY], inner);
    hide ReadItems;
  }

  lemma ObjectReads(inner: seq<u8>)
    ensures inner != [] && inner[0] == CLOSE_OBJECT ==>
      ReadValue([OPEN_OBJECT] + inner) == Good(JObject([]), inner[1..])
    ensures inner != [] && inner[0] != CLOSE_OBJECT && !IsSpace(inner[0]) ==>
      match ReadMembers(inner)
      case Bad => ReadValue([OPEN_OBJECT] + inner).Bad?
      case Good(members, rest) => ReadValue([OPEN_OBJECT] + inner) == Good(JObject(members), rest)
  {
    Cut([OPEN_OBJECT], inner);
    hide ReadMembers;
  }

  lemma LiteralReads(b: bool, rest: seq<u8>)
    ensures ReadValue((if b then TRUE_TEXT else FALSE_TEXT) + rest) == Good(JBool(b), rest)
  {
    var word := if b then TRUE_TEXT else FALSE_TEXT;
    Cut(word, rest);
    assert (word + rest)[0] == word[0];
    assert word <= word + rest;
  }

  /**
   * A printed tree, followed by anything that can follow a value, reads back as the tree it stands for and leaves
   * exactly what followed it; it fails to read exactly when some text in it has a bare control character
   * or is ill-formed UTF-16.
   */
  lemma {:induction false} ValueReads(f: NumberFormat, v: Value, rest: seq<u8>)
    requires Printable(v) && Ends(rest)
    ensures ReadValue(Print(f, v) + rest) == if Clean(v) then Good(Meaning(v), rest) else Bad
    decreases v, 1
  {
    match v
    case Null =>
      assert Inside([]) == [];
      assert Quoted([]) == Print(f, v);
      StringReads([], rest);
    case Bool(b) => LiteralReads(b, rest);
    case Int(i) => NumberReads(i, rest);
    case Long(l) => NumberReads(l, rest);
    case Text(_, units) => StringReads(units, rest);
    case Arr(items) =>
      hide ReadValue, ReadItems;
      var inner := PrintItems(f, items) + ([CLOSE_ARRAY] + rest);
      Assoc4([OPEN_ARRAY], PrintItems(f, items), [CLOSE_ARRAY], rest);
      if items == [] {
        assert inner == [CLOSE_ARRAY] + rest;
      } else {
        ItemsRead(f, items, rest);
      }
      ArrayReads(inner);
    case Obj(members) =>
      hide ReadValue, ReadMembers;
      var inner := PrintMembers(f, members) + ([CLOSE_OBJECT] + rest);
      Assoc4([OPEN_OBJECT], PrintMembers(f, members), [CLOSE_OBJECT], rest);
      if members == [] {
        assert inner == [CLOSE_OBJECT] + rest;
      } else {
        MembersRead(f, members, rest);
      }
      ObjectReads(inner);
  }

  lemma {:induction false} ItemsRead(f: NumberFormat, items: seq<Value>, rest: seq<u8>)
    requires AllPrintable(items) && items != []
    ensures var t := PrintItems(f, items) + ([CLOSE_ARRAY] + rest);
      && !IsSpace(t[0]) && t[0] != CLOSE_ARRAY
      && ReadItems(t) == if AllClean(items) then Good(MeaningItems(items), rest) else Bad
    decreases items, 0
  {
    var close := [CLOSE_ARRAY] + rest;
    var t := PrintItems(f, items) + close;
    PrintStart(f, items[0]);
    if |items| == 1 {
      ValueReads(f, items[0], close);
      ItemsStep(t, rest);
      assert MeaningItems(items) == [Meaning(items[0])];
    } else {
      var after := PrintItems(f, items[1..]) + close;
      Assoc4(Print(f, items[0]), [COMMA], PrintItems(f, items[1..]), close);
      ValueReads(f, items[0], [COMMA] + after);
      ItemsRead(f, items[1..], rest);
      ItemsStep(t, after);
    }
  }

  lemma MembersBadKey(t: seq<u8>)
    requires ReadKey(t).Bad?
    ensures ReadMembers(t).Bad?
  {
  }

  lemma MembersParts(members: seq<Member>)
    requires MembersPrintable(members) && members != []
    ensures Printable(members[0].value) && MembersPrintable(members[1..])
    ensures MembersClean(members) <==>
      Presentable(members[0].key) && Clean(members[0].value) && (|members| > 1 ==> MembersClean(members[1..]))
    ensures MeaningMembers(members) ==
      if |members| == 1 then [JMember(members[0].key, Meaning(members[0].value))]
      else [JMember(members[0].key, Meaning(members[0].value))] + MeaningMembers(members[1..])
  {
    hide Presentable;
    assert |members| == 1 ==> members[1..] == [];
  }

  lemma MembersText(f: NumberFormat, members: seq<Member>, close: seq<u8>)
    requires members != []
    ensures var tail := if |members| == 1 then close else [COMMA] + (PrintMembers(f, members[1..]) + close);
      PrintMembers(f, members) + close
      == Quoted(members[0].key) + ([COLON] + (Print(f, members[0].value) + tail))
  {
    var key, v := Quoted(members[0].key), Print(f, members[0].value);
    Assoc4(key, [COLON], v, close);
    if |members| > 1 {
      var more := PrintMembers(f, members[1..]);
      Assoc4(key + [COLON] + v, [COMMA], more, close);
      Assoc4(key, [COLON], v, [COMMA] + (more + close));
    }
  }

  lemma {:induction false} MembersRead(f: NumberFormat, members: seq<Member>, rest: seq<u8>)
    requires MembersPrintable(members) && members != []
    ensures var t := PrintMembers(f, members) + ([CLOSE_OBJECT] + rest);
      && t[0] == QUOTE
      && ReadMembers(t) == if MembersClean(members) then Good(MeaningMembers(members), rest) else Bad
    decreases members, 0
  {
    var close := [CLOSE_OBJECT] + rest;
    var t := PrintMembers(f, members) + close;
    var key, v := members[0].key, members[0].value;
    var after := PrintMembers(f, members[1..]) + close;
    var tail := if |members| == 1 then close else [COMMA] + after;
    var value := Print(f, v) + tail;
    assert t == Quoted(key) + ([COLON] + value) by { MembersText(f, members, close); }
    QuotedReads(key, [COLON] + value);
    MembersParts(members);
    assert Ends(tail);
    hide *;
    KeyReads(key, value);
    if !Presentable(key) {
      MembersBadKey(t);
    } else {
      ValueReads(f, v, tail);
      if |members| == 1 {
        MembersStep(t, key, value, rest);
      } else {
        MembersRead(f, members[1..], rest);
        MembersStep(t, key, value, after);
      }
    }
  }

  /**
   * JSON printing is undone by the RFC 8259 reader, for every tree JSON can carry, exactly when every text
   * in the tree is well-formed UTF-16 without control characters other than the five the printer escapes.
   */
  lemma JsonReadsBack(f: NumberFormat, v: Value)
    requires Printable(v)
    ensures ReadText(Print(f, v)) == Some(Meaning(v)) <==> Clean(v)
    ensures !Clean(v) ==> ReadText(Print(f, v)) == None
  {
    assert Print(f, v) + [] == Print(f, v);
    ValueReads(f, v, []);
  }

  /** The smallest text that does not read back: the unit 1 is printed bare. */
  lemma BareControlFails(f: NumberFormat)
    ensures ReadText(Print(f, Value.Text(Plain, [1]))) == None
  {
    assert [1][0] == 1 && BareControl(1);
    assert !Presentable([1]);
    JsonReadsBack(f, Value.Text(Plain, [1]));
  }

  /**
   * A surrogate without its other half does not read back either, though the printer leaves no control character:
   * its three bytes are no UTF-8. The reader that takes any units gives it back.
   */
  lemma LoneSurrogateFails(f: NumberFormat, c: u16)
    requires Surrogate(c)
    ensures NoBareControl([c]) && ReadText(Print(f, Value.Text(Plain, [c]))) == None
    ensures ReadCharacters(Print(f, Value.Text(Plain, [c]))[1..], false) == Good([c], [])
  {
    var v := Value.Text(Plain, [c]);
    assert Rfc2781([c]).None?;
    JsonReadsBack(f, v);
    QuotedReads([c], []);
    assert Print(f, v) + [] == Print(f, v);
  }

  // ---- plain texts ----

  /**
   * The plain text of a value: for a string its UTF-8 form, from which its units come back, for null nothing, for a
   * float or double what the C library prints, for an 8-bit string its bytes, and for all else a text that reads back
   * by RFC 8259 exactly when the value is clean.
   */
  lemma PlainTextReads(f: NumberFormat, v: Value)
    ensures v.Text? ==> FromUtf8(PlainText(f, v)) == Some(v.units)
    ensures v.Null? ==> PlainText(f, v) == []
    ensures v.Float? ==> PlainText(f, v) == f.float32(v.bits32)
    ensures v.Double? ==> PlainText(f, v) == f.float64(v.bits64)
    ensures v.Utf8? ==> PlainText(f, v) == v.bytes
    ensures Printable(v) && !v.Text? && !v.Null? ==>
      && (ReadText(PlainText(f, v)) == Some(Meaning(v)) <==> Clean(v))
      && (!Clean(v) ==> ReadText(PlainText(f, v)) == None)
  {
    if v.Text? { Utf8RoundTrip(v.units); }
    if Printable(v) { JsonReadsBack(f, v); }
    hide ReadText, FromUtf8, Clean, Meaning, Printable;
  }

  /** An 8-bit string that holds the UTF-8 form of some units has the plain text of the string with those units. */
  lemma BothStringsRead(f: NumberFormat, kind: TextKind, units: seq<u16>)
    ensures PlainText(f, Value.Utf8(Text.Utf8(units))) == PlainText(f, Value.Text(kind, units))
  {
  }
}
