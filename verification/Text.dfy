/** The UTF-16 to UTF-8 converters of wson_util.cpp, plain and JSON-quoting, as functions on unit sequences. */
module Text {
  import opened Words
  import opened Seqs

  const QUOTE: u8 := 0x22
  const BACKSLASH: u8 := 0x5C

  predicate IsHigh(ch: u16) { ch >= 0xD800 && ch < 0xDBFF + 1 }

  predicate IsLow(ch: u16) { ch >= 0xDC00 && ch < 0xDFFF + 1 }

  /** The folded form of the source: one unsigned 32-bit constant, which wraps around. */
  function ToCodePoint(high: u16, low: u16): u32 {
    Wrap32(high * 0x400 + low + Wrap32(0x1_0000 - 0xD800 * 0x400 - 0xDC00))
  }

  /** Section 2.2 of RFC 2781: the low ten bits of both units, and 0x10000 added. */
  lemma CodePointOfPair(high: u16, low: u16)
    requires IsHigh(high) && IsLow(low)
    ensures ToCodePoint(high, low) == high % 0x400 * 0x400 + low % 0x400 + 0x1_0000
    ensures 0x1_0000 <= ToCodePoint(high, low) <= 0x10_FFFF
  {
  }

  /** `0x80 | ((cp >> 6 * k) & 0x3F)` for `shifted` = `cp >> 6 * k`. */
  function Trail(shifted: u32): u8 { 0x80 + shifted % 0x40 }

  /** The bytes of one code point, in the six lengths the source knows. */
  function Char(cp: u32): (bs: seq<u8>)
    ensures |bs| <= 6
    ensures cp <= 0x7FFF_FFFF ==> bs != []
  {
    if cp <= 0x7F then [cp]
    else if cp <= 0x7FF then [0xC0 + cp / 0x40, Trail(cp)]
    else if cp <= 0xFFFF then [0xE0 + cp / 0x1000, Trail(cp / 0x40), Trail(cp)]
    else if cp <= 0x1F_FFFF then [0xF0 + cp / 0x4_0000, Trail(cp / 0x1000), Trail(cp / 0x40), Trail(cp)]
    else if cp <= 0x3FF_FFFF then
      [0xF8 + cp / 0x100_0000, Trail(cp / 0x4_0000), Trail(cp / 0x1000), Trail(cp / 0x40), Trail(cp)]
    else if cp <= 0x7FFF_FFFF then
      [0xFC + cp / 0x4000_0000, Trail(cp / 0x100_0000), Trail(cp / 0x4_0000), Trail(cp / 0x1000), Trail(cp / 0x40),
        Trail(cp)]
    else []
  }

  /** A high surrogate with a low one right after it. */
  predicate PairAhead(units: seq<u16>) { |units| >= 2 && IsHigh(units[0]) && IsLow(units[1]) }

  /** UTF-8 of a unit sequence; a surrogate without its other half is written like any other unit. */
  function Utf8(units: seq<u16>): seq<u8> {
    if units == [] then []
    else if PairAhead(units) then Char(ToCodePoint(units[0], units[1])) + Utf8(units[2..])
    else Char(units[0]) + Utf8(units[1..])
  }

  /** The letter that follows the backslash for the five control characters that have one; 0 for all other units. */
  function ShortEscape(c: u16): u8 {
    match c
    case 9 => 0x74
    case 13 => 0x72
    case 10 => 0x6E
    case 12 => 0x66
    case 8 => 0x62
    case _ => 0
  }

  /** One unit inside quotes. */
  function Escaped(c: u16): (bs: seq<u8>) {
    if c == QUOTE || c == BACKSLASH then [BACKSLASH, c]
    else if ShortEscape(c) != 0 then [BACKSLASH, ShortEscape(c)]
    else Char(c)
  }

  function Inside(units: seq<u16>): seq<u8> {
    if units == [] then []
    else if PairAhead(units) then Char(ToCodePoint(units[0], units[1])) + Inside(units[2..])
    else Escaped(units[0]) + Inside(units[1..])
  }

  function Quoted(units: seq<u16>): seq<u8> { [QUOTE] + Inside(units) + [QUOTE] }

  // ---- reading back ----

  predicate IsTrail(b: u8) { 0x80 <= b < 0xC0 }

  function Bits(b: u8): nat
    requires IsTrail(b)
  {
    b - 0x80
  }

  /** The code point at the front of `bs`, by its first byte, and the bytes it takes. */
  function Head(bs: seq<u8>): (r: Option<(u32, nat)>)
    ensures r.Some? ==> 1 <= r.value.1 <= |bs| && r.value.0 < 0x20_0000
  {
    if bs == [] then None
    else
      var b: int := bs[0];
      if b < 0x80 then Some((b, 1))
      else if 0xC0 <= b < 0xE0 && |bs| >= 2 && IsTrail(bs[1]) then
        Some(((b - 0xC0) * 0x40 + Bits(bs[1]), 2))
      else if 0xE0 <= b < 0xF0 && |bs| >= 3 && IsTrail(bs[1]) && IsTrail(bs[2]) then
        Some(((b - 0xE0) * 0x1000 + Bits(bs[1]) * 0x40 + Bits(bs[2]), 3))
      else if 0xF0 <= b < 0xF8 && |bs| >= 4 && IsTrail(bs[1]) && IsTrail(bs[2]) && IsTrail(bs[3]) then
        Some(((b - 0xF0) * 0x4_0000 + Bits(bs[1]) * 0x1000 + Bits(bs[2]) * 0x40 + Bits(bs[3]), 4))
      else None
  }

  /** Section 2.1 of RFC 2781: one unit, or a surrogate pair. */
  function UnitsOf(cp: u32): seq<u16>
    requires cp < 0x11_0000
  {
    if cp < 0x1_0000 then [cp]
    else [0xD800 + (cp - 0x1_0000) / 0x400, 0xDC00 + (cp - 0x1_0000) % 0x400]
  }

  /** A reader of generalized UTF-8, in which surrogates may stand alone. */
  function FromUtf8(bs: seq<u8>): Option<seq<u16>> {
    if bs == [] then Some([])
    else match Head(bs)
      case None => None
      case Some((cp, k)) =>
        if cp >= 0x11_0000 then None
        else match FromUtf8(bs[k..])
          case None => None
          case Some(units) => Some(UnitsOf(cp) + units)
  }

  lemma TrailBits(shifted: u32)
    ensures IsTrail(Trail(shifted)) && Bits(Trail(shifted)) == shifted % 0x40
  {
  }

  lemma SixBitDigits(cp: u32)
    ensures cp == cp / 0x40 * 0x40 + cp % 0x40
    ensures cp == cp / 0x1000 * 0x1000 + cp / 0x40 % 0x40 * 0x40 + cp % 0x40
    ensures cp == cp / 0x4_0000 * 0x4_0000 + cp / 0x1000 % 0x40 * 0x1000 + cp / 0x40 % 0x40 * 0x40 + cp % 0x40
  {
    var a := cp / 0x40;
    var b := a / 0x40;
    assert b == cp / 0x1000 && b / 0x40 == cp / 0x4_0000;
  }

  lemma HeadOfChar(cp: u32, rest: seq<u8>)
    requires cp < 0x20_0000
    ensures Head(Char(cp) + rest) == Some((cp, |Char(cp)|))
  {
    var c, bs := Char(cp), Char(cp) + rest;
    assert |c| >= 1 && bs[0] == c[0];
    assert |c| >= 2 ==> bs[1] == c[1];
    assert |c| >= 3 ==> bs[2] == c[2];
    assert |c| >= 4 ==> bs[3] == c[3];
    TrailBits(cp);
    TrailBits(cp / 0x40);
    TrailBits(cp / 0x1000);
    SixBitDigits(cp);
    hide Trail, IsTrail, Bits;
  }

  lemma UnitsOfPair(high: u16, low: u16)
    requires IsHigh(high) && IsLow(low)
    ensures UnitsOf(ToCodePoint(high, low)) == [high, low]
  {
    hide ToCodePoint;
    CodePointOfPair(high, low);
    assert high == 0xD800 + high % 0x400 && low == 0xDC00 + low % 0x400;
  }

  lemma FromUtf8Step(bs: seq<u8>, cp: u32, k: nat, units: seq<u16>)
    requires Head(bs) == Some((cp, k)) && cp < 0x11_0000 && FromUtf8(bs[k..]) == Some(units)
    ensures FromUtf8(bs) == Some(UnitsOf(cp) + units)
  {
    hide Head, UnitsOf;
  }

  /** The converter has a left inverse on every sequence of 16-bit units, lone surrogates included. */
  lemma {:induction false} Utf8RoundTrip(units: seq<u16>)
    ensures FromUtf8(Utf8(units)) == Some(units)
    decreases |units|
  {
    if units != [] {
      var n := if PairAhead(units) then 2 else 1;
      var cp := if PairAhead(units) then ToCodePoint(units[0], units[1]) else units[0];
      if PairAhead(units) {
        CodePointOfPair(units[0], units[1]);
        UnitsOfPair(units[0], units[1]);
      }
      assert UnitsOf(cp) + units[n..] == units;
      var rest := Utf8(units[n..]);
      assert Utf8(units) == Char(cp) + rest;
      hide *;
      Utf8RoundTrip(units[n..]);
      HeadOfChar(cp, rest);
      Cut(Char(cp), rest);
      FromUtf8Step(Utf8(units), cp, |Char(cp)|, units[n..]);
    }
  }

  /** Distinct texts have distinct UTF-8 forms. */
  lemma Utf8Injective(a: seq<u16>, b: seq<u16>)
    requires Utf8(a) == Utf8(b)
    ensures a == b
  {
    Utf8RoundTrip(a);
    Utf8RoundTrip(b);
  }

  // ---- the standards ----

  /** The byte grammar of section 4 of RFC 3629: the length of the character at the front, 0 if there is none. */
  function CharLength(bs: seq<u8>): (k: nat)
    ensures k <= |bs|
  {
    if bs == [] then 0
    else if bs[0] <= 0x7F then 1
    else if |bs| < 2 then 0
    else if 0xC2 <= bs[0] <= 0xDF then (if IsTrail(bs[1]) then 2 else 0)
    else if |bs| < 3 || !IsTrail(bs[2]) then 0
    else if bs[0] == 0xE0 then (if 0xA0 <= bs[1] <= 0xBF then 3 else 0)
    else if 0xE1 <= bs[0] <= 0xEC || 0xEE <= bs[0] <= 0xEF then (if IsTrail(bs[1]) then 3 else 0)
    else if bs[0] == 0xED then (if 0x80 <= bs[1] <= 0x9F then 3 else 0)
    else if |bs| < 4 || !IsTrail(bs[3]) then 0
    else if bs[0] == 0xF0 then (if 0x90 <= bs[1] <= 0xBF then 4 else 0)
    else if 0xF1 <= bs[0] <= 0xF3 then (if IsTrail(bs[1]) then 4 else 0)
    else if bs[0] == 0xF4 then (if 0x80 <= bs[1] <= 0x8F then 4 else 0)
    else 0
  }

  /** Decoding UTF-8 by RFC 3629; None for byte sequences outside its grammar. */
  function Rfc3629(bs: seq<u8>): Option<seq<u32>> {
    if bs == [] then Some([])
    else if CharLength(bs) == 0 || Head(bs).None? then None
    else match Rfc3629(bs[CharLength(bs)..])
      case None => None
      case Some(ps) => Some([Head(bs).value.0] + ps)
  }

  /** Decoding UTF-16 by section 2.2 of RFC 2781; None for sequences in error. */
  function Rfc2781(units: seq<u16>): Option<seq<u32>> {
    if units == [] then Some([])
    else if units[0] < 0xD800 || units[0] > 0xDFFF then
      (match Rfc2781(units[1..])
       case None => None
       case Some(ps) => Some([units[0]] + ps))
    else if units[0] > 0xDBFF || |units| < 2 || !(0xDC00 <= units[1] <= 0xDFFF) then None
    else
      (match Rfc2781(units[2..])
       case None => None
       case Some(ps) => Some([units[0] as int % 0x400 * 0x400 + units[1] as int % 0x400 + 0x1_0000] + ps))
  }

  predicate Surrogate(cp: u32) { 0xD800 <= cp <= 0xDFFF }

  lemma LengthOfChar(cp: u32, rest: seq<u8>)
    requires cp < 0x11_0000
    ensures CharLength(Char(cp) + rest) == if Surrogate(cp) then 0 else |Char(cp)|
  {
    var c, bs := Char(cp), Char(cp) + rest;
    assert |c| >= 1 && bs[0] == c[0];
    assert |c| >= 2 ==> bs[1] == c[1];
    assert |c| >= 3 ==> bs[2] == c[2];
    assert |c| >= 4 ==> bs[3] == c[3];
    SixBitDigits(cp);
  }

  lemma Rfc3629Step(bs: seq<u8>, cp: u32, k: nat)
    requires bs != [] && Head(bs) == Some((cp, k))
    requires CharLength(bs) == 0 || CharLength(bs) == k
    ensures CharLength(bs) == 0 ==> Rfc3629(bs) == None
    ensures CharLength(bs) == k && Rfc3629(bs[k..]).None? ==> Rfc3629(bs) == None
    ensures CharLength(bs) == k && Rfc3629(bs[k..]).Some? ==> Rfc3629(bs) == Some([cp] + Rfc3629(bs[k..]).value)
  {
    hide CharLength, Head;
  }

  /**
   * On well-formed UTF-16 the output is UTF-8 by the grammar of RFC 3629 and stands for the code points that
   * RFC 2781 reads in the input; on all other input, and only there, it is outside that grammar.
   */
  lemma {:induction false} Utf8MeetsStandards(units: seq<u16>)
    ensures Rfc3629(Utf8(units)) == Rfc2781(units)
    decreases |units|
  {
    if units != [] {
      var pair := PairAhead(units);
      var n := if pair then 2 else 1;
      var cp := if pair then ToCodePoint(units[0], units[1]) else units[0];
      if pair { CodePointOfPair(units[0], units[1]); }
      var rest, bs := Utf8(units[n..]), Utf8(units);
      assert bs == Char(cp) + rest;
      Utf8MeetsStandards(units[n..]);
      assert Surrogate(cp) ==> Rfc2781(units) == None;
      assert !Surrogate(cp) ==> match Rfc2781(units[n..])
        case None => Rfc2781(units) == None
        case Some(ps) => Rfc2781(units) == Some([cp] + ps);
      hide *;
      HeadOfChar(cp, rest);
      LengthOfChar(cp, rest);
      Cut(Char(cp), rest);
      Rfc3629Step(bs, cp, |Char(cp)|);
    }
  }

  // ---- decoding UTF-8 loses nothing ----

  /** The bytes of code points one after another. */
  function Chars(ps: seq<u32>): seq<u8> {
    if ps == [] then [] else Char(ps[0]) + Chars(ps[1..])
  }

  lemma CharOfTwo(x: nat, y: nat)
    requires 2 <= x < 0x20 && y < 0x40
    ensures Char(x * 0x40 + y) == [0xC0 + x, 0x80 + y]
  {
  }

  lemma CharOfThree(x: nat, y: nat, z: nat)
    requires x < 0x10 && y < 0x40 && z < 0x40 && x * 0x40 + y >= 0x20
    ensures Char(x * 0x1000 + y * 0x40 + z) == [0xE0 + x, 0x80 + y, 0x80 + z]
  {
    var cp: u32 := x * 0x1000 + y * 0x40 + z;
    SixBitDigits(cp);
    assert cp / 0x40 == x * 0x40 + y;
  }

  lemma CharOfFour(x: nat, y: nat, z: nat, w: nat)
    requires x < 8 && y < 0x40 && z < 0x40 && w < 0x40 && x * 0x40 + y >= 0x10
    ensures Char(x * 0x4_0000 + y * 0x1000 + z * 0x40 + w) == [0xF0 + x, 0x80 + y, 0x80 + z, 0x80 + w]
  {
    var cp: u32 := x * 0x4_0000 + y * 0x1000 + z * 0x40 + w;
    var a := cp / 0x40;
    assert a == x * 0x1000 + y * 0x40 + z;
    var b := a / 0x40;
    assert b == x * 0x40 + y && b == cp / 0x1000;
    assert b / 0x40 == x && b / 0x40 == cp / 0x4_0000;
  }

  /** What the grammar says of the bytes, and the code point they make. */
  lemma GrammarHead(bs: seq<u8>)
    requires CharLength(bs) > 0
    ensures CharLength(bs) <= 4 && forall i :: 1 <= i < CharLength(bs) ==> IsTrail(bs[i])
    ensures CharLength(bs) == 1 ==> bs[0] < 0x80 && Head(bs) == Some((bs[0], 1))
    ensures CharLength(bs) == 2 ==>
      0xC2 <= bs[0] < 0xE0 && Head(bs) == Some(((bs[0] - 0xC0) * 0x40 + Bits(bs[1]), 2))
    ensures CharLength(bs) == 3 ==>
      && 0xE0 <= bs[0] < 0xF0 && (bs[0] == 0xE0 ==> bs[1] >= 0xA0) && (bs[0] == 0xED ==> bs[1] < 0xA0)
      && Head(bs) == Some(((bs[0] - 0xE0) * 0x1000 + Bits(bs[1]) * 0x40 + Bits(bs[2]), 3))
    ensures CharLength(bs) == 4 ==>
      && 0xF0 <= bs[0] < 0xF5 && (bs[0] == 0xF0 ==> bs[1] >= 0x90) && (bs[0] == 0xF4 ==> bs[1] < 0x90)
      && Head(bs) == Some(((bs[0] - 0xF0) * 0x4_0000 + Bits(bs[1]) * 0x1000 + Bits(bs[2]) * 0x40 + Bits(bs[3]), 4))
  {
  }

  /** A character of the grammar is the form the converter writes for its code point, which is no surrogate. */
  lemma CharacterOfGrammar(bs: seq<u8>)
    requires CharLength(bs) > 0
    ensures Head(bs).Some? && Head(bs).value.1 == CharLength(bs)
    ensures Head(bs).value.0 < 0x11_0000 && !Surrogate(Head(bs).value.0)
    ensures bs[..CharLength(bs)] == Char(Head(bs).value.0)
  {
    GrammarHead(bs);
    var b: int, k := bs[0], CharLength(bs);
    assert k == 1 ==> Char(bs[0]) == [bs[0]];
    hide Char, Head, CharLength;
    if k == 2 {
      CharOfTwo(b - 0xC0, bs[1] - 0x80);
    } else if k == 3 {
      CharOfThree(b - 0xE0, bs[1] - 0x80, bs[2] - 0x80);
    } else if k == 4 {
      CharOfFour(b - 0xF0, bs[1] - 0x80, bs[2] - 0x80, bs[3] - 0x80);
    }
  }

  lemma CharsStep(p: u32, ps: seq<u32>)
    ensures Chars([p] + ps) == Char(p) + Chars(ps)
  {
    hide Char;
    assert ([p] + ps)[1..] == ps;
  }

  /** Well-formed UTF-8 is determined by the code points it stands for. */
  lemma {:induction false} Rfc3629Determines(bs: seq<u8>)
    requires Rfc3629(bs).Some?
    ensures bs == Chars(Rfc3629(bs).value)
    decreases |bs|
  {
    if bs != [] {
      var k, cp := CharLength(bs), Head(bs).value.0;
      var rest := bs[k..];
      assert k > 0;
      hide *;
      CharacterOfGrammar(bs);
      Rfc3629Step(bs, cp, k);
      var ps := Rfc3629(rest).value;
      assert Rfc3629(bs).value == [cp] + ps;
      Rfc3629Determines(rest);
      Halves(bs, k);
      CharsStep(cp, ps);
    }
  }

  /** The converter gives back every well-formed UTF-8 text from any UTF-16 that stands for the same code points. */
  lemma ConvertsBack(bs: seq<u8>, units: seq<u16>)
    requires Rfc3629(bs).Some? && Rfc2781(units) == Rfc3629(bs)
    ensures Utf8(units) == bs
  {
    Utf8MeetsStandards(units);
    hide *;
    Rfc3629Determines(bs);
    Rfc3629Determines(Utf8(units));
  }

  lemma UnitsReadBack(cp: u32, units: seq<u16>)
    requires cp < 0x11_0000 && !Surrogate(cp)
    ensures Rfc2781(UnitsOf(cp) + units)
      == match Rfc2781(units) case None => None case Some(ps) => Some([cp] + ps)
  {
    var us := UnitsOf(cp) + units;
    assert us[0] == UnitsOf(cp)[0];
    if cp < 0x1_0000 {
      assert us[1..] == units;
    } else {
      var low: int := (cp - 0x1_0000) % 0x400;
      assert us[1] == UnitsOf(cp)[1] == 0xDC00 + low && us[2..] == units;
      assert us[0] as int % 0x400 == (cp - 0x1_0000) / 0x400 && us[1] as int % 0x400 == low;
    }
  }

  /** The left inverse of the converter is a right inverse too, on every well-formed UTF-8 text. */
  lemma {:induction false} FromUtf8Inverts(bs: seq<u8>)
    requires Rfc3629(bs).Some?
    ensures FromUtf8(bs).Some? && Rfc2781(FromUtf8(bs).value) == Rfc3629(bs) && Utf8(FromUtf8(bs).value) == bs
    decreases |bs|
  {
    if bs != [] {
      var k, cp := CharLength(bs), Head(bs).value.0;
      CharacterOfGrammar(bs);
      FromUtf8Inverts(bs[k..]);
      var units := FromUtf8(bs[k..]).value;
      UnitsReadBack(cp, units);
      hide CharLength, Head, UnitsOf, Rfc2781, Utf8;
      FromUtf8Step(bs, cp, k, units);
      ConvertsBack(bs, FromUtf8(bs).value);
    }
  }

  // ---- scratch space ----

  lemma {:induction false} Utf8Bound(units: seq<u16>)
    ensures |Utf8(units)| <= 3 * |units|
    decreases |units|
  {
    if units != [] {
      if PairAhead(units) {
        CodePointOfPair(units[0], units[1]);
        Utf8Bound(units[2..]);
      } else {
        Utf8Bound(units[1..]);
      }
    }
  }

  lemma {:induction false} InsideBound(units: seq<u16>)
    ensures |Inside(units)| <= 3 * |units|
    decreases |units|
  {
    if units != [] {
      if PairAhead(units) {
        CodePointOfPair(units[0], units[1]);
        InsideBound(units[2..]);
      } else {
        InsideBound(units[1..]);
      }
    }
  }

  /** The widest text of `n` units. */
  function Widest(n: nat): seq<u16> { seq(n, _ => 0xFFFF) }

  lemma {:induction false} WidestLength(n: nat)
    ensures |Utf8(Widest(n))| == 3 * n && |Inside(Widest(n))| == 3 * n
  {
    if n > 0 {
      WidestLength(n - 1);
      assert Widest(n)[1..] == Widest(n - 1);
    }
  }

  /** Every text of `n` units, converted with its terminator, stays inside `size` bytes. */
  ghost predicate PlainFits(size: nat, n: nat) { forall units :: |units| == n ==> |Utf8(units)| + 1 <= size }

  ghost predicate QuotedFits(size: nat, n: nat) { forall units :: |units| == n ==> |Quoted(units)| + 1 <= size }

  lemma FitsBySize(size: nat, n: nat)
    ensures PlainFits(size, n) <==> 3 * n + 1 <= size
    ensures QuotedFits(size, n) <==> 3 * n + 3 <= size
  {
    forall units: seq<u16> | |units| == n ensures |Utf8(units)| <= 3 * n && |Quoted(units)| <= 3 * n + 2 {
      Utf8Bound(units);
      InsideBound(units);
    }
    WidestLength(n);
    assert |Utf8(Widest(n))| == 3 * n && |Quoted(Widest(n))| == 3 * n + 2;
  }
}
