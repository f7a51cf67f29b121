/** How the buffer of wson.c grows: the arithmetic of its resize rule, and what any run of pushes costs. */
module Growth {
  const INITIAL := 1024
  const LEAP := 16384

  /** Content below this size never makes a 32-bit position or length wrap around. */
  const MAX_CONTENT := 0x7FFF_0000

  /** The new length when a buffer of `length` bytes has no room for `size` more. */
  function Resized(length: nat, size: nat): (r: nat)
    ensures r >= 2 * length
    ensures r >= length + size
  {
    if size < length then
      if length < LEAP then LEAP + length else length + length
    else
      size + INITIAL + length
  }

  /** What a buffer occupies, and the bytes reallocation has copied so far. */
  datatype Extent = Extent(position: nat, length: nat, copied: nat)

  const NEW := Extent(0, INITIAL, 0)

  /** One push makes room for `reserve` bytes and then writes `written` of them. */
  datatype Push = Push(reserve: nat, written: nat)

  /** The reservations of wson.c exceed what is written by at most four bytes. */
  predicate Fits(p: Push) { p.written <= p.reserve <= p.written + 4 }

  function Reserve(e: Extent, size: nat): Extent {
    if e.length < e.position + size
    then Extent(e.position, Resized(e.length, size), e.copied + e.length)
    else e
  }

  function After(e: Extent, p: Push): Extent {
    var r := Reserve(e, p.reserve);
    r.(position := r.position + p.written)
  }

  function AfterAll(e: Extent, ps: seq<Push>): Extent
    decreases |ps|
  {
    if ps == [] then e else AfterAll(After(e, ps[0]), ps[1..])
  }

  /** The position stays inside; the spare room and the copying are linear in what was written. */
  predicate Sound(e: Extent) {
    && e.position <= e.length
    && e.length <= 2 * e.position + LEAP + 8
    && e.copied + INITIAL <= e.length
  }

  lemma SoundAfter(e: Extent, p: Push)
    requires Sound(e) && Fits(p)
    ensures Sound(After(e, p))
  {
    var r := Reserve(e, p.reserve);
    if e.length < e.position + p.reserve {
      assert r.length <= 2 * (e.position + p.reserve) + LEAP;
      assert r.copied + INITIAL <= 2 * e.length;
    }
  }

  /**
   * Growth is amortised linear over every run of pushes from a new buffer: all reallocations together copy
   * less than the final length, and the final length is at most twice the content plus a constant.
   */
  lemma {:induction false} Amortised(ps: seq<Push>)
    requires forall p :: p in ps ==> Fits(p)
    ensures Sound(AfterAll(NEW, ps))
  {
    AmortisedFrom(NEW, ps);
  }

  lemma {:induction false} AmortisedFrom(e: Extent, ps: seq<Push>)
    requires Sound(e)
    requires forall p :: p in ps ==> Fits(p)
    ensures Sound(AfterAll(e, ps))
    decreases |ps|
  {
    if ps != [] {
      SoundAfter(e, ps[0]);
      AmortisedFrom(After(e, ps[0]), ps[1..]);
    }
  }
}
