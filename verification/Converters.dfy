/** The conversion loops of wson_util.cpp, which write into a caller's byte array. */
module Converters {
  import opened Words
  import opened Seqs
  import opened Text
  import opened Scratch

  /** The forms of five and six bytes, and none for what is beyond them. */
  method PutLongChar(codePoint: u32, utf8: array<u8>, at: nat) returns (count: nat)
    requires codePoint > 0x1F_FFFF && at + |Char(codePoint)| <= utf8.Length
    modifies utf8
    ensures count == |Char(codePoint)| && Stored(utf8, at, Char(codePoint))
  {
    hide Trail;
    if codePoint <= 0x3FF_FFFF {
      utf8[at] := 0xF8 + codePoint / 0x100_0000;
      utf8[at + 1] := Trail(codePoint / 0x4_0000);
      utf8[at + 2] := Trail(codePoint / 0x1000);
      utf8[at + 3] := Trail(codePoint / 0x40);
      utf8[at + 4] := Trail(codePoint);
      return 5;
    } else if codePoint <= 0x7FFF_FFFF {
      utf8[at] := 0xFC + codePoint / 0x4000_0000;
      utf8[at + 1] := Trail(codePoint / 0x100_0000);
      utf8[at + 2] := Trail(codePoint / 0x4_0000);
      utf8[at + 3] := Trail(codePoint / 0x1000);
      utf8[at + 4] := Trail(codePoint / 0x40);
      utf8[at + 5] := Trail(codePoint);
      return 6;
    }
    return 0;
  }

  /** Writes the bytes of one code point and tells how many. */
  method PutChar(codePoint: u32, utf8: array<u8>, at: nat) returns (count: nat)
    requires at + |Char(codePoint)| <= utf8.Length
    modifies utf8
    ensures count == |Char(codePoint)| && Stored(utf8, at, Char(codePoint))
  {
    hide Trail;
    if codePoint <= 0x7F {
      utf8[at] := codePoint;
      return 1;
    } else if codePoint <= 0x7FF {
      utf8[at] := 0xC0 + codePoint / 0x40;
      utf8[at + 1] := Trail(codePoint);
      return 2;
    } else if codePoint <= 0xFFFF {
      utf8[at] := 0xE0 + codePoint / 0x1000;
      utf8[at + 1] := Trail(codePoint / 0x40);
      utf8[at + 2] := Trail(codePoint);
      return 3;
    } else if codePoint <= 0x1F_FFFF {
      utf8[at] := 0xF0 + codePoint / 0x4_0000;
      utf8[at + 1] := Trail(codePoint / 0x1000);
      utf8[at + 2] := Trail(codePoint / 0x40);
      utf8[at + 3] := Trail(codePoint);
      return 4;
    }
    count := PutLongChar(codePoint, utf8, at);
  }

  lemma Utf8Step(units: seq<u16>, i: nat)
    requires i < |units|
    ensures PairAhead(units[i..]) ==>
      Utf8(units[i..]) == Char(ToCodePoint(units[i], units[i + 1])) + Utf8(units[i + 2..])
    ensures !PairAhead(units[i..]) ==> Utf8(units[i..]) == Char(units[i]) + Utf8(units[i + 1..])
  {
    assert units[i..][1..] == units[i + 1..];
    assert PairAhead(units[i..]) ==> units[i..][2..] == units[i + 2..];
  }

  /** Converts, adds a terminator, and returns the number of bytes before it. */
  method ToUtf8(utf16: seq<u16>, buffer: array<u8>) returns (count: nat)
    requires |Utf8(utf16)| < buffer.Length
    modifies buffer
    ensures count == |Utf8(utf16)| && buffer[..count] == Utf8(utf16) && buffer[count] == 0
  {
    hide Utf8, Char, ToCodePoint;
    count := 0;
    var i := 0;
    assert utf16[0..] == utf16;
    while i < |utf16|
      invariant i <= |utf16| && count <= buffer.Length
      invariant buffer[..count] + Utf8(utf16[i..]) == Utf8(utf16)
    {
      Utf8Step(utf16, i);
      ghost var done := buffer[..count];
      var c1 := utf16[i];
      i := i + 1;
      if IsHigh(c1) {
        if i < |utf16| {
          var c2 := utf16[i];
          i := i + 1;
          if IsLow(c2) {
            var codePoint := ToCodePoint(c1, c2);
            Assoc(done, Char(codePoint), Utf8(utf16[i..]));
            var n := PutChar(codePoint, buffer, count);
            count := count + n;
            continue;
          } else {
            i := i - 1;
          }
        }
      }
      Assoc(done, Char(c1), Utf8(utf16[i..]));
      var n := PutChar(c1, buffer, count);
      count := count + n;
    }
    Utf8End(utf16, buffer[..count]);
    buffer[count] := 0;
  }

  lemma Utf8End(units: seq<u16>, done: seq<u8>)
    ensures done + Utf8(units[|units|..]) == done
  {
  }

  lemma InsideStep(units: seq<u16>, i: nat)
    requires i < |units|
    ensures PairAhead(units[i..]) ==>
      Inside(units[i..]) == Char(ToCodePoint(units[i], units[i + 1])) + Inside(units[i + 2..])
    ensures !PairAhead(units[i..]) ==> Inside(units[i..]) == Escaped(units[i]) + Inside(units[i + 1..])
  {
    assert units[i..][1..] == units[i + 1..];
    assert PairAhead(units[i..]) ==> units[i..][2..] == units[i + 2..];
  }

  lemma InsideEnd(units: seq<u16>, done: seq<u8>)
    ensures done + Inside(units[|units|..]) == done
  {
  }

  /** One unit inside quotes: a backslash in front of a quote or backslash, or a short escape, or the unit itself. */
  method PutQuotedUnit(c1: u16, src: array<u8>, at: nat) returns (count: nat)
    requires at + |Escaped(c1)| <= src.Length
    modifies src
    ensures count == |Escaped(c1)| && Stored(src, at, Escaped(c1))
  {
    count := 0;
    if c1 < 0x5D {
      if c1 == QUOTE || c1 == BACKSLASH {
        src[at] := BACKSLASH;
        count := 1;
      } else {
        if c1 <= 0x1F {
          var letter := ShortEscape(c1);
          if letter != 0 {
            src[at] := BACKSLASH;
            src[at + 1] := letter;
            return 2;
          }
        }
      }
    }
    var n := PutChar(c1, src, at + count);
    count := count + n;
  }

  /** The loop between the quotes. */
  method PutInside(utf16: seq<u16>, src: array<u8>, at: nat) returns (count: nat)
    requires at + |Inside(utf16)| <= src.Length
    modifies src
    ensures count == at + |Inside(utf16)| && Stored(src, at, Inside(utf16))
  {
    hide Inside, Char, Escaped, ToCodePoint;
    count := at;
    var i := 0;
    ghost var all := src[..at] + Inside(utf16);
    assert utf16[0..] == utf16;
    while i < |utf16|
      invariant i <= |utf16| && count <= src.Length
      invariant src[..count] + Inside(utf16[i..]) == all
    {
      InsideStep(utf16, i);
      ghost var done := src[..count];
      var c1 := utf16[i];
      i := i + 1;
      if IsHigh(c1) {
        if i < |utf16| {
          var c2 := utf16[i];
          i := i + 1;
          if IsLow(c2) {
            var codePoint := ToCodePoint(c1, c2);
            Assoc(done, Char(codePoint), Inside(utf16[i..]));
            var n := PutChar(codePoint, src, count);
            count := count + n;
            continue;
          } else {
            i := i - 1;
          }
        }
      }
      Assoc(done, Escaped(c1), Inside(utf16[i..]));
      var n := PutQuotedUnit(c1, src, count);
      count := count + n;
    }
    InsideEnd(utf16, src[..count]);
  }

  /** Converts with quotes and escapes, adds a terminator, and returns the number of bytes before it. */
  method ToQuotedUtf8(utf16: seq<u16>, buffer: array<u8>) returns (count: nat)
    requires |Quoted(utf16)| < buffer.Length
    modifies buffer
    ensures count == |Quoted(utf16)| && buffer[..count] == Quoted(utf16) && buffer[count] == 0
  {
    hide Inside;
    buffer[0] := QUOTE;
    count := PutInside(utf16, buffer, 1);
    buffer[count] := QUOTE;
    count := count + 1;
    buffer[count] := 0;
  }

  /**
   * Appends the UTF-8 form of a text to a string, by way of a new scratch array, and tells whether the conversion
   * stayed inside it; it did not when the size is no `int`.
   */
  method AppendUtf8(utf16: seq<u16>, utf8: seq<u8>) returns (r: seq<u8>, inside: bool)
    requires |utf16| < 0x8000_0000
    ensures r == utf8 + Utf8(utf16) && inside == (|Utf8(utf16)| + 1 <= StringScratch(|utf16|))
    ensures |utf16| < 0x1FFF_FFFF ==> inside
  {
    StringScratchExactly(|utf16|);
    var dest := new u8[|Utf8(utf16)| + 1];
    var count := ToUtf8(utf16, dest);
    inside := count + 1 <= StringScratch(|utf16|);
    r := utf8 + dest[..count];
  }

  method AppendQuotedUtf8(utf16: seq<u16>, utf8: seq<u8>) returns (r: seq<u8>, inside: bool)
    requires |utf16| < 0x8000_0000
    ensures r == utf8 + Quoted(utf16) && inside == (|Quoted(utf16)| + 1 <= StringScratch(|utf16|))
    ensures |utf16| < 0x1FFF_FFFF ==> inside
  {
    StringScratchExactly(|utf16|);
    var dest := new u8[|Quoted(utf16)| + 1];
    var count := ToQuotedUtf8(utf16, dest);
    inside := count + 1 <= StringScratch(|utf16|);
    r := utf8 + dest[..count];
  }
}
