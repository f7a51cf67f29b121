/**
 * The entry points of dom_wson.cpp. They hand the parser the data without their length, so it looks for signatures in
 * the first mebibyte only.
 */
module DomEntry {
  import opened Words
  import opened Values
  import opened JsonText
  import opened Dom
  import opened DomTree
  import opened DomTheorems
  import opened DomAgreement
  import opened DomBuilder
  import opened Parser
  import opened Varint
  import DomCollector
  import DomGenerator
  import Text
  import Tags

  /** The data begin with the encoding of the value, which is not longer than the parser believes. */
  ghost predicate Given(data: array<u8>, v: Value)
    reads data
  {
    data.Length < 0x8000_0000 && Has(data[..], 0, Enc(v)) && |Enc(v)| <= MEBIBYTE
  }

  function TreeOf(r: Option<Render>): Option<Node> { match r case None => None case Some(x) => Some(View(x)) }

  /** One of the two builders reads the value; on agreeable values it makes no difference which. */
  method Wson2RenderObject(data: array?<u8>, isUseRunTimeApi: bool, format: NumberFormat, ghost v: Value)
    returns (r: Option<Render>)
    requires data != null ==> Given(data, v)
    ensures data == null ==> r == None
    ensures data != null ==> TreeOf(r) == if isUseRunTimeApi then Collected(format, v) else Returned(format, v)
    ensures data != null && OnceEach(v) && Agreeable(format, v) ==> TreeOf(r) == Collected(format, v)
  {
    hide Enc, Has, View, Built, Collected, OnceEach, Agreeable;
    if data == null {
      return None;
    }
    if OnceEach(v) { BuildersAgreeExactly(format, v); }
    var parser := new WsonParser.Unmeasured(data, format);
    if isUseRunTimeApi {
      r := DomCollector.BuildNew(parser, v);
    } else {
      var made := Build(parser, v);
      r := if made == [] then None else Some(Current(made));
    }
  }

  /** The callbacks of a whole document. */
  method WsonGenerate(data: array?<u8>, parentRef: Str, index: int, format: NumberFormat, ghost v: Value)
    returns (log: seq<Generated>)
    requires data != null ==> Given(data, v) && DomGenerator.InStep(format, v)
    ensures log == if data == null then [] else Preorder(format, v, parentRef, index)
  {
    hide Enc, Has, Preorder, DomGenerator.InStep;
    if data == null {
      return [];
    }
    var parser := new WsonParser.Unmeasured(data, format);
    log := DomGenerator.Generate(parser, parentRef, index, [], v);
    assert [] + Preorder(format, v, parentRef, index) == Preorder(format, v, parentRef, index);
  }

  // ---- pairs ----

  function PairList(f: NumberFormat, members: seq<Member>): seq<(Str, Str)> {
    if members == [] then []
    else [(Text.Utf8(members[0].key), PlainText(f, members[0].value))] + PairList(f, members[1..])
  }

  lemma PairListFrom(f: NumberFormat, members: seq<Member>, i: nat, done: seq<(Str, Str)>)
    requires i < |members|
    ensures done + PairList(f, members[i..])
      == done + [(Text.Utf8(members[i].key), PlainText(f, members[i].value))] + PairList(f, members[i + 1..])
  {
    assert members[i..][1..] == members[i + 1..];
  }

  lemma {:induction false} PairsInOrder(f: NumberFormat, members: seq<Member>)
    ensures |PairList(f, members)| == |members|
    ensures forall i :: 0 <= i < |members| ==>
      PairList(f, members)[i] == (Text.Utf8(members[i].key), PlainText(f, members[i].value))
    decreases |members|
  {
    if members != [] {
      var rest := members[1..];
      PairsInOrder(f, rest);
      hide PlainText, Text.Utf8;
      assert forall i :: 0 < i < |members| ==> members[i] == rest[i - 1];
    }
  }

  lemma NoPairs(f: NumberFormat, members: seq<Member>)
    ensures PairList(f, members[|members|..]) == []
  {
  }

  /** The entries of a map, in order and with repeated names; nothing for what is no map. */
  method Wson2Pairs(data: array?<u8>, format: NumberFormat, ghost v: Value) returns (pairs: Option<seq<(Str, Str)>>)
    requires data != null ==> Given(data, v)
    ensures pairs == if data != null && v.Obj? then Some(PairList(format, v.members)) else None
    ensures pairs.Some? ==>
      && |pairs.value| == |v.members|
      && forall i :: 0 <= i < |v.members| ==>
           pairs.value[i] == (Text.Utf8(v.members[i].key), PlainText(format, v.members[i].value))
  {
    hide Enc, Has, PlainText, Text.Utf8;
    if data == null {
      return None;
    }
    if v.Obj? { PairsInOrder(format, v.members); }
    var parser := new WsonParser.Unmeasured(data, format);
    SeenFirst(parser, v);
    TagOfContainer(v);
    hide Tag, MembersAhead, ItemsAhead, MembersEnd, ItemsEnd, PairList, Payload;
    var t := NextSignature(parser, v);
    if t == Tags.MAP {
      var ps := ReadAll(parser, v.members);
      pairs := Some(ps);
    } else {
      pairs := None;
    }
  }

  lemma SeenFirst(parser: WsonParser, v: Value)
    requires parser.buffer.length == MEBIBYTE && parser.buffer.position == 0
    ensures Seen(parser, v) == v
  {
  }

  method ReadAll(parser: WsonParser, ghost members: seq<Member>) returns (pairs: seq<(Str, Str)>)
    requires MembersAhead(parser, members)
    modifies parser.buffer`position, parser`scratch
    ensures pairs == PairList(parser.format, members)
  {
    hide Var, Has, Enc, EncMembers, Bytes16, Sized, Text.Utf8, PlainText, PairList;
    ghost var d, end := parser.buffer.data[..], MembersEnd(parser, members);
    var mapSize := parser.NextMapSize(|members|);
    NoMore([], members);
    NoPairs(parser.format, members);
    pairs := [];
    for i := 0 to mapSize
      invariant parser.Valid() && parser.Next(EncMembers(members[i..]))
      invariant parser.buffer.position + |EncMembers(members[i..])| == end
      invariant pairs + PairList(parser.format, members[i..]) == PairList(parser.format, members)
    {
      FirstMember(d, parser.buffer.position, members, i);
      PairListFrom(parser.format, members, i, pairs);
      var key := parser.NextMapKeyUtf8(members[i].key);
      var value := NextText(parser, members[i].value);
      pairs := pairs + [(key, value)];
    }
  }
}
