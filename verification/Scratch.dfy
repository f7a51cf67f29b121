/**
 * The scratch array that wson_parser.cpp keeps between conversions. It asks for four bytes a unit, and keeps what it
 * has when that is enough. Its bytes mean nothing between conversions, so all there is to keep is its size.
 */
module Scratch {
  import opened Words
  import opened Text

  /** The size of the array, and whether every conversion so far stayed inside it. */
  datatype Kept = Kept(size: i32, inside: bool)

  /** No array yet. */
  const NO_SCRATCH := Kept(0, true)

  /** A text handed to one of the two converters. */
  datatype Conversion = Conversion(quoted: bool, units: seq<u16>)

  function Written(c: Conversion): seq<u8> { if c.quoted then Quoted(c.units) else Utf8(c.units) }

  /** `size * 2` for the byte length `size` of `n` units, in 32-bit integers. */
  function Request(n: nat): i32 { ToSigned32(Wrap32(2 * ToSigned32(Wrap32(2 * n)))) }

  /** The size after a request; none when the allocation of a negative size throws. */
  function Required(size: i32, length: i32): Option<i32> {
    if size <= 0 || size < length then (if length < 0 then None else Some(length)) else Some(size)
  }

  /** One conversion, with its terminator. */
  function Converted(k: Kept, c: Conversion): Kept {
    match Required(k.size, Request(|c.units|))
    case None => Kept(k.size, false)
    case Some(size) => Kept(size, k.inside && |Written(c)| + 1 <= size)
  }

  function ConvertedAll(k: Kept, cs: seq<Conversion>): Kept
    decreases |cs|
  {
    if cs == [] then k else ConvertedAll(Converted(k, cs[0]), cs[1..])
  }

  lemma {:induction false} ConvertedConcat(k: Kept, a: seq<Conversion>, b: seq<Conversion>)
    ensures ConvertedAll(k, a + b) == ConvertedAll(ConvertedAll(k, a), b)
    decreases |a|
  {
    if a == [] {
      assert a + b == b;
    } else {
      assert (a + b)[1..] == a[1..] + b && (a + b)[0] == a[0];
      hide Converted;
      ConvertedConcat(Converted(k, a[0]), a[1..], b);
    }
  }

  lemma NoneOrOne(k: Kept, c: Conversion)
    ensures ConvertedAll(k, []) == k && ConvertedAll(k, [c]) == Converted(k, c)
  {
    hide Converted;
  }

  // ---- sizes ----

  /** From this many units on, the request does not fit into an `int`. */
  const TOO_LONG := 0x2000_0000

  /** Texts whose byte length fits into an `int`. */
  const ADDRESSABLE := 0x4000_0000

  lemma RequestValue(n: nat)
    requires n < ADDRESSABLE
    ensures Request(n) == if n < TOO_LONG then 4 * n else 4 * n - 0x1_0000_0000
    ensures n >= TOO_LONG ==> Request(n) < 0
  {
  }

  predicate Short(ns: seq<nat>) { forall i :: 0 <= i < |ns| ==> ns[i] < ADDRESSABLE }

  /** The size after texts of these lengths, the newest last. */
  function SizeAfter(ns: seq<nat>): i32 {
    if ns == [] then 0
    else
      var size := SizeAfter(ns[..|ns| - 1]);
      match Required(size, Request(ns[|ns| - 1])) case None => size case Some(s) => s
  }

  /** After any run the scratch is as long as the longest request that fitted into an `int`. */
  lemma {:induction false} SizeIsLargest(ns: seq<nat>)
    requires Short(ns)
    ensures SizeAfter(ns) >= 0
    ensures forall k :: k in ns && k < TOO_LONG ==> 4 * k <= SizeAfter(ns)
    ensures SizeAfter(ns) > 0 ==> exists k :: k in ns && k < TOO_LONG && SizeAfter(ns) == 4 * k
    decreases |ns|
  {
    if ns != [] {
      var before, n := ns[..|ns| - 1], ns[|ns| - 1];
      SizeIsLargest(before);
      RequestValue(n);
      assert ns == before + [n];
      assert n in ns;
      hide Request;
      if SizeAfter(ns) == SizeAfter(before) && SizeAfter(before) > 0 {
        var k :| k in before && k < TOO_LONG && SizeAfter(before) == 4 * k;
        assert k in ns;
      }
    }
  }

  /** Every text of `n` units stays inside, when it comes after texts of the lengths `before`. */
  ghost predicate AllFit(before: seq<nat>, n: nat, quoted: bool) {
    forall units :: |units| == n ==> Converted(Kept(SizeAfter(before), true), Conversion(quoted, units)).inside
  }

  lemma AllFitBySize(before: seq<nat>, n: nat, quoted: bool)
    ensures AllFit(before, n, quoted) <==>
      match Required(SizeAfter(before), Request(n))
      case None => false
      case Some(size) => 3 * n + (if quoted then 3 else 1) <= size
  {
    hide Request, SizeAfter, Utf8, Quoted;
    match Required(SizeAfter(before), Request(n))
    case None =>
      assert |Widest(n)| == n && !Converted(Kept(SizeAfter(before), true), Conversion(quoted, Widest(n))).inside;
    case Some(size) =>
      FitsBySize(size, n);
      assert AllFit(before, n, quoted) <==> if quoted then QuotedFits(size, n) else PlainFits(size, n) by {
        forall units: seq<u16> | |units| == n
          ensures Converted(Kept(SizeAfter(before), true), Conversion(quoted, units)).inside
            <==> |Written(Conversion(quoted, units))| + 1 <= size
        {
        }
      }
  }

  /**
   * After any run of conversions of texts of the lengths `before`, one of length `n` stays inside the scratch, whatever
   * its units, exactly when its own request fits into an `int` and is long enough, or an earlier one did and was.
   */
  lemma ScratchFitsExactly(before: seq<nat>, n: nat)
    requires Short(before) && n < ADDRESSABLE
    ensures AllFit(before, n, false) <==>
      1 <= n < TOO_LONG || exists k :: k in before && k < TOO_LONG && 4 * k >= 3 * n + 1
    ensures AllFit(before, n, true) <==>
      3 <= n < TOO_LONG || exists k :: k in before && k < TOO_LONG && 4 * k >= 3 * n + 3
  {
    AllFitBySize(before, n, false);
    AllFitBySize(before, n, true);
    SizeIsLargest(before);
    RequestValue(n);
    hide AllFit, SizeAfter, Request;
  }

  // ---- whole runs ----

  /**
   * A run of conversions stays inside, from no array at all, exactly when each text has room, with its terminator, in
   * four times the length of a text that came before it or of itself, and whose request fits into an `int`.
   */
  ghost predicate AllHaveRoom(cs: seq<Conversion>) {
    forall i :: 0 <= i < |cs| ==> HasRoom(cs, i)
  }

  ghost predicate HasRoom(cs: seq<Conversion>, i: nat)
    requires i < |cs|
  {
    exists j :: 0 <= j <= i && |Written(cs[i])| + 1 <= Asked(cs[j])
  }

  function Asked(c: Conversion): nat { if |c.units| < TOO_LONG then 4 * |c.units| else 0 }

  predicate Addressable(cs: seq<Conversion>) { forall i :: 0 <= i < |cs| ==> |cs[i].units| < ADDRESSABLE }

  /** The largest request. */
  function Longest(cs: seq<Conversion>): nat {
    if cs == [] then 0
    else
      var before, n := Longest(cs[..|cs| - 1]), Asked(cs[|cs| - 1]);
      if before < n then n else before
  }

  lemma {:induction false} LongestIs(cs: seq<Conversion>, k: nat)
    requires k > 0
    ensures k <= Longest(cs) <==> exists j :: 0 <= j < |cs| && k <= Asked(cs[j])
    decreases |cs|
  {
    if cs != [] {
      var before := cs[..|cs| - 1];
      LongestIs(before, k);
      assert forall j :: 0 <= j < |before| ==> before[j] == cs[j];
    }
  }

  lemma {:induction false} RunExactly(cs: seq<Conversion>)
    requires Addressable(cs)
    ensures ConvertedAll(NO_SCRATCH, cs).size == Longest(cs)
    ensures ConvertedAll(NO_SCRATCH, cs).inside <==> AllHaveRoom(cs)
    decreases |cs|
  {
    if cs != [] {
      var n := |cs| - 1;
      var before, last := cs[..n], cs[n];
      assert cs == before + [last];
      RunExactly(before);
      ConvertedConcat(NO_SCRATCH, before, [last]);
      NoneOrOne(ConvertedAll(NO_SCRATCH, before), last);
      RequestValue(|last.units|);
      LongestIs(cs, |Written(last)| + 1);
      assert HasRoom(cs, n) <==> |Written(last)| + 1 <= Longest(cs);
      assert forall i :: 0 <= i < n ==> HasRoom(cs, i) == HasRoom(before, i) by {
        forall i | 0 <= i < n ensures HasRoom(cs, i) == HasRoom(before, i) {
          assert forall j :: 0 <= j <= i ==> before[j] == cs[j];
        }
      }
      hide Request, ConvertedAll, HasRoom, Written;
    }
  }

  /** Once a text of three or more units has been converted, every later one stays inside. */
  lemma {:induction false} InsideFromThenOn(k: Kept, cs: seq<Conversion>)
    requires k.size >= 9 && forall i :: 0 <= i < |cs| ==> |cs[i].units| < TOO_LONG
    ensures ConvertedAll(k, cs).inside == k.inside
    decreases |cs|
  {
    if cs != [] {
      var c := cs[0];
      RequestValue(|c.units|);
      Utf8Bound(c.units);
      InsideBound(c.units);
      assert |Written(c)| <= 3 * |c.units| + 2;
      hide Request, Written;
      InsideFromThenOn(Converted(k, c), cs[1..]);
    }
  }

  /** An empty text that comes first does not: its array is empty, and the terminator needs a byte. */
  lemma EmptyTextFirst(quoted: bool)
    ensures !Converted(NO_SCRATCH, Conversion(quoted, [])).inside
  {
  }

  // ---- the string forms of the converters ----

  /** `length * 4 + 4` in 32-bit integers. */
  function StringScratch(n: nat): i32 { ToSigned32(Wrap32(ToSigned32(Wrap32(4 * n)) + 4)) }

  /** They allocate what holds every text of `n` units, plain or quoted, exactly when that is an `int`. */
  lemma StringScratchExactly(n: nat)
    requires n < 0x8000_0000
    ensures StringScratch(n) >= 0 && PlainFits(StringScratch(n), n) <==> n < 0x1FFF_FFFF
    ensures StringScratch(n) >= 0 && QuotedFits(StringScratch(n), n) <==> n < 0x1FFF_FFFF
  {
    StringScratchValue(n);
    if StringScratch(n) >= 0 { FitsBySize(StringScratch(n), n); }
    hide StringScratch, PlainFits, QuotedFits;
  }

  lemma StringScratchValue(n: nat)
    requires n < 0x8000_0000
    ensures n < 0x1FFF_FFFF ==> StringScratch(n) == 4 * n + 4
    ensures n >= 0x1FFF_FFFF ==> StringScratch(n) < 3 * n
  {
  }
}
