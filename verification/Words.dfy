/** Machine words as bounded integers, and the vocabulary for "these bytes are found here". */
module Words {
  type u8 = x: int | 0 <= x < 0x100
  type u16 = x: int | 0 <= x < 0x1_0000
  type u32 = x: int | 0 <= x < 0x1_0000_0000
  type u64 = x: int | 0 <= x < 0x1_0000_0000_0000_0000
  type i32 = x: int | -0x8000_0000 <= x < 0x8000_0000
  type i64 = x: int | -0x8000_0000_0000_0000 <= x < 0x8000_0000_0000_0000

  /** Unsigned 32-bit wrap-around. */
  function Wrap32(x: int): u32 { x % 0x1_0000_0000 }

  /** The conversion of an unsigned word to a signed one: same bits, two's complement. */
  function ToSigned32(x: u32): i32 { if x < 0x8000_0000 then x else x - 0x1_0000_0000 }

  function ToSigned64(x: u64): i64 {
    if x < 0x8000_0000_0000_0000 then x else x - 0x1_0000_0000_0000_0000
  }

  function ToUnsigned64(x: i64): u64 { if x < 0 then x + 0x1_0000_0000_0000_0000 else x }

  /** A text of ASCII characters, as bytes or as UTF-16 units. */
  function Ascii(s: string): (bs: seq<u8>)
    requires forall i :: 0 <= i < |s| ==> s[i] < 128 as char
    ensures |bs| == |s| && forall i :: 0 <= i < |s| ==> bs[i] == s[i] as int < 128
  {
    seq(|s|, i requires 0 <= i < |s| => s[i] as int)
  }

  /** The decimal digits of a number. */
  function Digits(n: nat): (ds: seq<u8>)
    ensures ds != []
  {
    if n < 10 then [0x30 + n] else Digits(n / 10) + [0x30 + n % 10]
  }

  /** `part` is what `whole` holds from index `at` on. */
  ghost predicate Has<T>(whole: seq<T>, at: nat, part: seq<T>) {
    at + |part| <= |whole| && whole[at..at + |part|] == part
  }

  lemma HasSplit<T>(whole: seq<T>, at: nat, a: seq<T>, b: seq<T>)
    ensures Has(whole, at, a + b) <==> Has(whole, at, a) && Has(whole, at + |a|, b)
  {
    if Has(whole, at, a + b) {
      var w := whole[at..at + |a + b|];
      assert w[..|a|] == a && w[|a|..] == b;
      assert whole[at..at + |a|] == w[..|a|];
      assert whole[at + |a|..at + |a| + |b|] == w[|a|..];
    }
    if Has(whole, at, a) && Has(whole, at + |a|, b) {
      assert whole[at..at + |a| + |b|] == whole[at..at + |a|] + whole[at + |a|..at + |a| + |b|];
    }
  }

  /** `bs` was put into `data` at `at`, and what lies before it is as it was. */
  twostate predicate Stored(data: array<u8>, at: nat, bs: seq<u8>)
    requires at + |bs| <= data.Length
    reads data
  {
    data[..at + |bs|] == old(data[..at]) + bs
  }

  datatype Option<+T> = None | Some(value: T)
}
