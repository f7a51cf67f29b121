/** The direct-mapped identifier cache of wson_jsc.cpp. Identifiers belong to a virtual machine. */
module Identifiers {
  import opened Words

  type Vm = nat

  /**
   * `Ident(vm, text)` is what `Identifier::fromString` makes; the other two are the constants that belong to
   * no machine.
   */
  datatype Identifier = NullIdentifier | EmptyIdentifier | Ident(vm: Vm, text: seq<u16>)

  datatype CacheEntry = CacheEntry(identifier: Identifier, length: nat, key: u32, utf16: seq<u16>)

  /** A slot as the constructor of `IdentifierCache` leaves it. */
  const FRESH_ENTRY := CacheEntry(EmptyIdentifier, 0, 0, [])

  /** A slot as `init` leaves it. */
  const CLEARED_ENTRY := CacheEntry(NullIdentifier, 0, 0, [])

  /** Whatever a slot would answer is right for this machine. */
  predicate Truthful(vm: Vm, e: CacheEntry) {
    e.length > 0 && !e.identifier.NullIdentifier? ==> |e.utf16| == e.length && e.identifier == Ident(vm, e.utf16)
  }

  predicate CacheOk(vm: Vm, entries: seq<CacheEntry>) { forall i :: 0 <= i < |entries| ==> Truthful(vm, entries[i]) }

  /** The decimal number a text of digits stands for. */
  function DigitsNumber(text: seq<u16>): nat
    requires forall i :: 0 <= i < |text| ==> 0x30 <= text[i] <= 0x39
  {
    if text == [] then 0 else 10 * DigitsNumber(text[..|text| - 1]) + (text[|text| - 1] - 0x30)
  }

  /** `parseIndex`: a name that is the decimal form of an array index below 2^32 - 1, without superfluous zeros. */
  function ParseIndex(text: seq<u16>): Option<u32> {
    if text == [] || (exists i :: 0 <= i < |text| && !(0x30 <= text[i] <= 0x39)) then None
    else
      var n := DigitsNumber(text);
      if n < 0xFFFF_FFFF && (text[0] != 0x30 || |text| == 1) then Some(n) else None
  }

  /** The name of an array element. */
  function IndexName(n: nat): seq<u16> { Digits(n) }

  lemma {:induction false} FormOfNumber(text: seq<u16>)
    requires text != [] && forall i :: 0 <= i < |text| ==> 0x30 <= text[i] <= 0x39
    requires text[0] != 0x30 || |text| == 1
    ensures Digits(DigitsNumber(text)) == text
    ensures |text| > 1 ==> DigitsNumber(text) >= 10
    decreases |text|
  {
    var k := |text| - 1;
    if k > 0 {
      FormOfNumber(text[..k]);
      assert k > 1 ==> DigitsNumber(text[..k]) >= 10;
      assert k == 1 ==> text[..k] == [text[0]] && DigitsNumber([text[0]]) == text[0] - 0x30;
      assert DigitsNumber(text) / 10 == DigitsNumber(text[..k]);
      assert text == text[..k] + [text[k]];
    } else {
      assert text == [text[0]] && text[..0] == [];
    }
  }

  lemma {:induction false} NumberOfForm(n: nat)
    ensures forall i :: 0 <= i < |Digits(n)| ==> 0x30 <= Digits(n)[i] <= 0x39
    ensures DigitsNumber(Digits(n)) == n
    ensures Digits(n)[0] == 0x30 ==> |Digits(n)| == 1 && n == 0
  {
    var ds: seq<u16> := Digits(n);
    if n >= 10 {
      NumberOfForm(n / 10);
      assert ds[..|ds| - 1] == Digits(n / 10) && ds[0] == Digits(n / 10)[0];
    } else {
      assert ds[..0] == [] && DigitsNumber([]) == 0;
    }
  }

  /** The name of every array element is its index. */
  lemma IndexNameReads(n: nat)
    requires n < 0xFFFF_FFFF
    ensures ParseIndex(IndexName(n)) == Some(n)
  {
    NumberOfForm(n);
  }

  /** Different names never have the same index. */
  lemma IndexDetermines(a: seq<u16>, b: seq<u16>)
    requires ParseIndex(a).Some? && ParseIndex(a) == ParseIndex(b)
    ensures a == b
  {
    FormOfNumber(a);
    FormOfNumber(b);
  }

  function IndexOf(name: Identifier): Option<u32> { if name.Ident? then ParseIndex(name.text) else None }

  /** Bitwise and, bit by bit. */
  function BitAnd(a: nat, b: nat): (r: nat)
    ensures r <= a
  {
    if a == 0 then 0 else (a % 2) * (b % 2) + 2 * BitAnd(a / 2, b / 2)
  }

  function Djb2(h: u32, utf16: seq<u16>): u32
    decreases |utf16|
  {
    if utf16 == [] then h else Djb2(Wrap32(Wrap32(h * 32) + h + utf16[0]), utf16[1..])
  }

  method Hash(utf16: seq<u16>) returns (hash: u32)
    ensures hash == Djb2(5381, utf16)
  {
    hash := 5381;
    assert utf16[0..] == utf16;
    for i := 0 to |utf16|
      invariant Djb2(hash, utf16[i..]) == Djb2(5381, utf16)
    {
      assert utf16[i..][1..] == utf16[i + 1..];
      hash := Wrap32(Wrap32(hash * 32) + hash + utf16[i]);
    }
  }

  /**
   * The identifier of a property name, from the cache if the slot holds that very name. The answer is what an uncached
   * lookup gives, whatever ran before and whichever names collide, for a cache of any size.
   */
  method MakeIdentifier(vm: Vm, cache: array<CacheEntry>, utf16: seq<u16>) returns (r: Identifier)
    requires cache.Length > 0 && CacheOk(vm, cache[..])
    modifies cache
    ensures r == Ident(vm, utf16) && CacheOk(vm, cache[..])
  {
    var length := |utf16|;
    if length <= 0 {
      return Ident(vm, []);
    }
    if utf16[0] <= 0 || utf16[0] >= 127 || length > 32 {
      return Ident(vm, utf16);
    }
    var key := Hash(utf16);
    var localIndex := BitAnd(cache.Length - 1, key);
    var entry := cache[localIndex];
    assert Truthful(vm, cache[..][localIndex]);
    if entry.length == length && entry.key == key && entry.utf16 == utf16 && !entry.identifier.NullIdentifier? {
      return entry.identifier;
    }
    var identifier := Ident(vm, utf16);
    ghost var before := cache[..];
    cache[localIndex] := CacheEntry(identifier, length, key, utf16);
    assert cache[..] == before[localIndex := CacheEntry(identifier, length, key, utf16)];
    return identifier;
  }
}
