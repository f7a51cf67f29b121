/**
 * The integer codes of wson.c as functions on byte sequences: base-128 varints, the zigzag map
 * that makes small negative numbers short, and fixed big-endian words.
 * `x & 0x7F` is `x % 128`, `x >> 7` is `x / 128` and `x | 0x80` on a 7-bit `x` is `x + 128`.
 */
module Varint {
  import opened Words
  import opened Seqs

  /** The byte form of an unsigned number: 7 bits a byte, low bits first, top bit set on all but the last. */
  function Var(n: nat): (bs: seq<u8>)
    ensures |bs| >= 1
  {
    if n < 128 then [n] else [n % 128 + 128] + Var(n / 128)
  }

  lemma VarGroup(done: seq<u8>, n: nat)
    ensures n < 128 ==> Var(n) == [n]
    ensures n >= 128 ==> |Var(n)| == 1 + |Var(n / 128)| && done + Var(n) == done + [n % 128 + 128] + Var(n / 128)
  {
  }

  /** The number at the front of `bs` and the bytes it takes. */
  function ReadVar(bs: seq<u8>): Option<(u32, nat)> { ReadGroups(bs, 5) }

  /** Reads up to `limit` groups; the last one ends the number whatever its top bit, and gives 4 bits only. */
  function ReadGroups(bs: seq<u8>, limit: nat): (r: Option<(nat, nat)>)
    requires 1 <= limit
    ensures r.Some? ==> r.value.0 < Reach(limit) && 1 <= r.value.1 <= limit && r.value.1 <= |bs|
  {
    if bs == [] then None
    else if limit == 1 then Some((bs[0] % 16, 1))
    else if bs[0] < 128 then Some((bs[0], 1))
    else match ReadGroups(bs[1..], limit - 1)
      case None => None
      case Some((n, k)) => Some((bs[0] - 128 + 128 * n, k + 1))
  }

  /** How many numbers `limit` groups can tell apart. */
  function Reach(limit: nat): (p: nat)
    requires 1 <= limit
    ensures p >= 16 && (limit > 1 ==> p >= 128)
    ensures limit == 2 ==> p == 0x800
    ensures limit == 3 ==> p == 0x4_0000
    ensures limit == 4 ==> p == 0x200_0000
    ensures limit == 5 ==> p == 0x1_0000_0000
  {
    if limit == 1 then 16 else 128 * Reach(limit - 1)
  }

  /** Reading undoes writing, whatever follows. */
  lemma {:induction false} VarReads(n: nat, rest: seq<u8>, limit: nat)
    requires 1 <= limit && n < Reach(limit)
    ensures ReadGroups(Var(n) + rest, limit) == Some((n, |Var(n)|))
    ensures |Var(n)| <= limit
  {
    if n >= 128 {
      VarReads(n / 128, rest, limit - 1);
      assert (Var(n) + rest)[1..] == Var(n / 128) + rest;
    } else {
      assert (Var(n) + rest)[0] == n;
    }
  }

  /** The five groups the reader looks at are exactly enough for every 32-bit number. */
  lemma VarRoundTrip(n: u32, rest: seq<u8>)
    ensures ReadVar(Var(n) + rest) == Some((n, |Var(n)|))
    ensures |Var(n)| <= 5
  {
    VarReads(n, rest, 5);
  }

  lemma VarIsNext(bs: seq<u8>, at: nat, n: u32)
    requires Has(bs, at, Var(n))
    ensures ReadVar(bs[at..]) == Some((n, |Var(n)|))
  {
    var rest := bs[at + |Var(n)|..];
    assert bs[at..] == Var(n) + rest;
    hide *;
    VarRoundTrip(n, rest);
  }

  /** `b & 0x7F` and `b & 0x0F`. */
  function Low7(b: u8): nat { b % 128 }

  function Low4(b: u8): nat { b % 16 }

  lemma GroupAt(bs: seq<u8>, i: nat, limit: nat)
    requires 1 <= limit && i <= |bs| && ReadGroups(bs[i..], limit).Some?
    ensures i < |bs|
    ensures limit == 1 ==> ReadGroups(bs[i..], limit).value == (Low4(bs[i]), 1)
    ensures limit > 1 && bs[i] < 128 ==> ReadGroups(bs[i..], limit).value == (Low7(bs[i]), 1) && Low7(bs[i]) == bs[i]
    ensures limit > 1 && bs[i] >= 128 ==>
      && ReadGroups(bs[i + 1..], limit - 1).Some?
      && var (n, k) := ReadGroups(bs[i + 1..], limit - 1).value;
      && ReadGroups(bs[i..], limit).value == (Low7(bs[i]) + 128 * n, k + 1)
  {
    assert bs[i..] != [];
    assert bs[i..][1..] == bs[i + 1..];
  }

  /** What the unrolled reader of wson.c computes from the bytes at an index is what `ReadVar` reads there. */
  lemma Unrolled(bs: seq<u8>, i: nat)
    requires i <= |bs| && ReadVar(bs[i..]).Some?
    ensures var (n, k) := ReadVar(bs[i..]).value;
      && i + k <= |bs|
      && (forall j :: i <= j < i + k - 1 ==> bs[j] >= 128)
      && (k < 5 ==> bs[i + k - 1] < 128)
      && (k == 1 ==> n == bs[i])
      && (k == 2 ==> n == Low7(bs[i]) + Low7(bs[i + 1]) * 0x80)
      && (k == 3 ==> n == Low7(bs[i]) + Low7(bs[i + 1]) * 0x80 + Low7(bs[i + 2]) * 0x4000)
      && (k == 4 ==> n == Low7(bs[i]) + Low7(bs[i + 1]) * 0x80 + Low7(bs[i + 2]) * 0x4000 + Low7(bs[i + 3]) * 0x20_0000)
      && (k == 5 ==> n == Low7(bs[i]) + Low7(bs[i + 1]) * 0x80 + Low7(bs[i + 2]) * 0x4000 + Low7(bs[i + 3]) * 0x20_0000
                          + Low4(bs[i + 4]) * 0x1000_0000)
  {
    hide ReadGroups, Low7, Low4;
    GroupAt(bs, i, 5);
    if bs[i] >= 128 {
      GroupAt(bs, i + 1, 4);
      if bs[i + 1] >= 128 {
        GroupAt(bs, i + 2, 3);
        if bs[i + 2] >= 128 {
          GroupAt(bs, i + 3, 2);
          if bs[i + 3] >= 128 {
            GroupAt(bs, i + 4, 1);
          }
        }
      }
    }
  }

  /** No code word is a proper prefix of another: what follows a varint can be told from it. */
  lemma VarPrefixFree(a: nat, b: nat, x: seq<u8>, y: seq<u8>)
    requires Var(a) + x == Var(b) + y
    ensures a == b && x == y
    decreases a
  {
    var whole := Var(a) + x;
    assert whole[0] == Var(a)[0] == Var(b)[0];
    VarCases(a, x);
    VarCases(b, y);
    assert (a < 128) == (b < 128);
    hide Var;
    if a >= 128 {
      VarPrefixFree(a / 128, b / 128, x, y);
    }
  }

  lemma VarCases(n: nat, x: seq<u8>)
    ensures n < 128 ==> Var(n)[0] == n && (Var(n) + x)[1..] == x
    ensures n >= 128 ==> Var(n)[0] == n % 128 + 128 && (Var(n) + x)[1..] == Var(n / 128) + x
  {
  }

  /** The writer's form is a shortest one: whatever bytes read as `n`, they are no fewer than `Var(n)`. */
  lemma {:induction false} VarMinimal(bs: seq<u8>, limit: nat)
    requires 1 <= limit && ReadGroups(bs, limit).Some?
    ensures |Var(ReadGroups(bs, limit).value.0)| <= ReadGroups(bs, limit).value.1
  {
    if limit > 1 && bs[0] >= 128 {
      VarMinimal(bs[1..], limit - 1);
      var (m, k) := ReadGroups(bs[1..], limit - 1).value;
      var n := bs[0] - 128 + 128 * m;
      if n >= 128 { assert n / 128 == m; }
    }
  }

  // ---- zigzag ----

  /** `value >> 31` is 0 or -1, and exclusive-or with -1 is `-1 - x`. */
  function XorSign(x: i32, negative: bool): i32 { if negative then -1 - x else x }

  function Zig(value: i32): u32 {
    Wrap32(XorSign(ToSigned32(Wrap32(2 * value)), value < 0))
  }

  /** `(value >> 1) & ~(1 << 31)` is the logical shift, and `-(value & 1)` is 0 or -1. */
  function Zag(zigged: u32): i32 {
    XorSign(zigged / 2, zigged % 2 == 1)
  }

  /** Zigzag numbers the signed words 0, -1, 1, -2, 2, … and is a bijection, the least word included. */
  lemma ZigZag(value: i32)
    ensures Zig(value) == (if value >= 0 then 2 * value else -2 * value - 1)
    ensures Zag(Zig(value)) == value
  {
    assert value >= 0 ==> Wrap32(2 * value) == 2 * value;
    assert value < 0 ==> Wrap32(2 * value) == 2 * value + 0x1_0000_0000;
  }

  lemma ZagZig(zigged: u32)
    ensures Zig(Zag(zigged)) == zigged
  {
    ZigZag(Zag(zigged));
  }

  // ---- lists of numbers ----

  function VarList(ns: seq<u32>): seq<u8> {
    if ns == [] then [] else Var(ns[0]) + VarList(ns[1..])
  }

  /** Reads `count` varints: the numbers and the bytes they take. */
  function ReadList(bs: seq<u8>, count: nat): Option<(seq<u32>, nat)>
    decreases count
  {
    if count == 0 then Some(([], 0))
    else match ReadVar(bs)
      case None => None
      case Some((n, k)) =>
        match ReadList(bs[k..], count - 1)
        case None => None
        case Some((ns, m)) => Some(([n] + ns, k + m))
  }

  lemma ListStep(bs: seq<u8>, n: u32, k: nat, ns: seq<u32>, m: nat)
    requires ReadVar(bs) == Some((n, k)) && ReadList(bs[k..], |ns|) == Some((ns, m))
    ensures ReadList(bs, |ns| + 1) == Some(([n] + ns, k + m))
  {
    hide ReadVar;
    assert |ns| + 1 - 1 == |ns|;
  }

  lemma ListCons(n: u32, more: seq<u8>, rest: seq<u8>, ns: seq<u32>)
    requires ReadList(more + rest, |ns|) == Some((ns, |more|))
    ensures ReadList(Var(n) + more + rest, |ns| + 1) == Some(([n] + ns, |Var(n) + more|))
  {
    hide *;
    Assoc(Var(n), more, rest);
    Cut(Var(n), more + rest);
    VarRoundTrip(n, more + rest);
    ListStep(Var(n) + more + rest, n, |Var(n)|, ns, |more|);
  }

  /** Any list of unsigned numbers written one after another reads back in order, and no byte beyond is taken. */
  lemma {:induction false} ListRoundTrip(ns: seq<u32>, rest: seq<u8>)
    ensures ReadList(VarList(ns) + rest, |ns|) == Some((ns, |VarList(ns)|))
    decreases |ns|
  {
    if ns != [] {
      ListRoundTrip(ns[1..], rest);
      ListCons(ns[0], VarList(ns[1..]), rest, ns[1..]);
      hide Var, ReadList;
      assert [ns[0]] + ns[1..] == ns;
    }
  }

  function ZigAll(xs: seq<i32>): seq<u32> { seq(|xs|, i requires 0 <= i < |xs| => Zig(xs[i])) }

  function ZagAll(ns: seq<u32>): seq<i32> { seq(|ns|, i requires 0 <= i < |ns| => Zag(ns[i])) }

  /** Any list of signed 32-bit numbers pushed one after another reads back in order. */
  lemma IntsRoundTrip(xs: seq<i32>, rest: seq<u8>)
    ensures var back := ReadList(VarList(ZigAll(xs)) + rest, |xs|);
      back.Some? && ZagAll(back.value.0) == xs && back.value.1 == |VarList(ZigAll(xs))|
  {
    ListRoundTrip(ZigAll(xs), rest);
    forall i | 0 <= i < |xs| ensures Zag(Zig(xs[i])) == xs[i] { ZigZag(xs[i]); }
  }

  // ---- fixed-width words ----

  /** `(n >> 8 * k) & 0xFF`, shifting a byte at a time. */
  function Octet(n: nat, k: nat): u8 { if k == 0 then n % 256 else Octet(n / 256, k - 1) }

  /** The `k` low bytes of `n`, most significant first. */
  function BigEndian(n: nat, k: nat): (bs: seq<u8>)
    ensures |bs| == k
  {
    if k == 0 then [] else BigEndian(n / 256, k - 1) + [n % 256]
  }

  lemma {:induction false} BigEndianOctet(n: nat, k: nat, i: nat)
    requires i < k
    ensures BigEndian(n, k)[i] == Octet(n, k - 1 - i)
  {
    if i < k - 1 { BigEndianOctet(n / 256, k - 1, i); }
  }

  /** Adding the shifted bytes gives the word back. */
  lemma BigEndianSum4(n: u32)
    ensures var b := BigEndian(n, 4);
      n == b[3] as int + b[2] as int * 0x100 + b[1] as int * 0x1_0000 + b[0] as int * 0x100_0000
  {
    var a := n / 256;
    var b := a / 256;
    var c := b / 256;
    assert BigEndian(c, 1) == [c];
    assert BigEndian(b, 2) == [c, b % 256];
    assert BigEndian(a, 3) == [c, b % 256, a % 256];
  }

  lemma BigEndianSum8(n: u64)
    ensures var b := BigEndian(n, 8);
      n == b[7] as int + b[6] as int * 0x100 + b[5] as int * 0x1_0000 + b[4] as int * 0x100_0000
        + b[3] as int * 0x1_0000_0000
        + b[2] as int * 0x100_0000_0000 + b[1] as int * 0x1_0000_0000_0000 + b[0] as int * 0x100_0000_0000_0000
  {
    var a := n / 256;
    var b := a / 256;
    var c := b / 256;
    var high := c / 256;
    BigEndianSum4(high);
    var h := BigEndian(high, 4);
    assert BigEndian(c, 5) == h + [c % 256];
    assert BigEndian(b, 6) == h + [c % 256, b % 256];
    assert BigEndian(a, 7) == h + [c % 256, b % 256, a % 256];
    assert BigEndian(n, 8) == h + [c % 256, b % 256, a % 256, n % 256];
  }
}
