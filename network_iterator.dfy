/**
 * `NetworkIterator` (src/network/iterator.rs): a cursor over IPv4 addresses
 * that yields `current` and steps it by one until it reaches `end`. The end
 * is exclusive: `end` itself is never yielded.
 *
 * The cursor keeps each address as its unsigned 32-bit value (`to_bits()`
 * read as a number), which is what the step `to_bits() + 1` works on.
 */
module NetworkIterator {
  import opened Wrappers

  /** The value of a `u32`: 0 ..= u32::MAX. */
  type AddrValue = n: nat | n <= 0xFFFF_FFFF

  /** The addresses f, f+1, ..., l-1 in order: what a cursor from f to l yields. */
  function Range(f: AddrValue, l: AddrValue): (r: seq<AddrValue>)
    requires f <= l
    ensures |r| == l - f
    ensures forall i :: 0 <= i < |r| ==> r[i] == f + i
    decreases l - f
  {
    if f == l then [] else [f] + Range(f + 1, l)
  }

  /** `l` is never yielded, and every address in [f, l) is. */
  lemma RangeMembers(f: AddrValue, l: AddrValue, x: AddrValue)
    requires f <= l
    ensures x in Range(f, l) <==> f <= x < l
  {
    if f <= x < l {
      assert Range(f, l)[x - f] == x;
    }
  }

  /** A cursor that starts `w` below its end yields `w` addresses, its end not among them. */
  lemma RangeOfSpan(f: AddrValue, l: AddrValue, w: nat)
    requires f + w == l
    ensures |Range(f, l)| == w && l !in Range(f, l)
  {
    RangeMembers(f, l, l);
  }

  /** The items come in strictly increasing order, so none is repeated. */
  lemma RangeIncreasing(f: AddrValue, l: AddrValue, i: int, j: int)
    requires f <= l && 0 <= i < j < |Range(f, l)|
    ensures Range(f, l)[i] < Range(f, l)[j]
  {
  }

  class NetworkIterator {
    var current: AddrValue
    var end: AddrValue

    /** The cursor has not run past its end, so no step overflows. */
    predicate Valid()
      reads this
    {
      current <= end
    }

    /** The addresses still to come. */
    function Remaining(): seq<AddrValue>
      reads this
      requires Valid()
    {
      Range(current, end)
    }

    /** `new(first, last)` */
    constructor(first: AddrValue, last: AddrValue)
      ensures current == first && end == last
      ensures Valid() <==> first <= last
    {
      current := first;
      end := last;
    }

    /**
     * `next()`: `None` once `current == end`, with nothing changed; otherwise
     * the old `current`, and `current` steps by one. Requires that the step
     * does not run past `u32::MAX`, which a valid cursor guarantees.
     */
    method Next() returns (r: Option<AddrValue>)
      requires current != end ==> current < 0xFFFF_FFFF
      modifies this
      ensures end == old(end)
      ensures r.None? <==> old(current) == end
      ensures r.None? ==> current == old(current)
      ensures r.Some? ==> r.value == old(current) && current == old(current) + 1
      ensures old(Valid()) ==> Valid()
      ensures old(Valid()) ==> old(Remaining()) == (if r.Some? then [r.value] else []) + Remaining()
    {
      if current == end {
        r := None;
      } else {
        r := Some(current);
        current := current + 1;
      }
    }

    /** The consumer loop: call `next()` until it returns `None`, keeping every item. */
    method Collect() returns (items: seq<AddrValue>)
      requires Valid()
      modifies this
      ensures items == old(Remaining())
      ensures current == end && end == old(end)
    {
      items := [];
      var x := Next();
      while x.Some?
        invariant Valid() && end == old(end)
        invariant x.Some? ==> old(Remaining()) == items + [x.value] + Remaining()
        invariant x.None? ==> old(Remaining()) == items && current == end
        decreases |Remaining()|, x.Some?
      {
        items := items + [x.value];
        x := Next();
      }
    }
  }
}
