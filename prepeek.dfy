/** The lookahead adapter: an iterator wrapper that keeps the next `L`
    not-yet-returned pull results in a ring buffer so that they can be peeked
    at without advancing. */
module Prepeek {
  import opened Producer
  import opened Ring

  /** One `Next` on a non-empty buffer that holds the `|ring|` values from
      index `pos` of the input: the slot at offset 0 holds the value due now,
      and putting the pull `|ring|` further on into that slot and moving the
      index one slot on leaves the buffer holding the values from `pos + 1`. */
  lemma SwapKeepsLookahead<T>(ring: seq<Option<T>>, ringIndex: nat, items: seq<T>, pos: int)
    requires ringIndex < |ring|
    requires Window(ring, ringIndex) == Ahead(items, pos, |ring|)
    ensures ring[ringIndex] == At(items, pos)
    ensures Window(ring[ringIndex := At(items, pos + |ring|)], (ringIndex + 1) % |ring|) == Ahead(items, pos + 1, |ring|)
  {
    WindowAt(ring, ringIndex, 0);
    assert ringIndex % |ring| == ringIndex;
    Rotate(ring, ringIndex, At(items, pos + |ring|));
    AheadShift(items, pos, |ring|);
  }

  /** A buffer of None in every slot, read from slot 0, is the lookahead of
      an object that has not pulled yet. */
  lemma FreshBufferIsLookahead<T>(ring: seq<Option<T>>, items: seq<T>)
    requires forall k :: 0 <= k < |ring| ==> ring[k] == None
    ensures Window(ring, 0) == Ahead(items, 0 - |ring|, |ring|)
  {
    WindowFromZero(ring);
    forall n | 0 <= n < |ring| ensures ring[n] == Ahead(items, 0 - |ring|, |ring|)[n] {
      assert Ahead(items, 0 - |ring|, |ring|)[n] == At(items, n - |ring|);
    }
  }

  class Prepeek<T> {
    /** The lookahead depth, fixed at construction. */
    const L: nat
    /** The wrapped iterator. */
    var iter: Source<T>
    /** One slot per lookahead offset; a None slot marks exhaustion. */
    const ring: array<Option<T>>
    /** The slot that holds offset 0, the value the next `Next` returns. */
    var ringIndex: nat

    /** How many values `Next` has handed out since construction finished:
        the index in the input of the value due next. It is negative while
        the constructor is still priming the buffer. */
    ghost function Position(): int
      reads this
    {
      iter.pulled - L
    }

    /** The object invariant: read from `ringIndex` on, the buffer holds the
        next `L` values of the input, None past its end. */
    ghost predicate Valid()
      reads this, ring
    {
      ring.Length == L &&
      (if L == 0 then ringIndex == 0 else ringIndex < L) &&
      Window(ring[..], ringIndex) == Ahead(iter.items, Position(), L)
    }

    /** Wraps a producer over `items`, pulling it `depth` times to fill the
        buffer; a producer shorter than `depth` leaves None in the rest. */
    constructor (items: seq<T>, depth: nat)
      ensures Valid() && fresh(ring)
      ensures L == depth && iter == Source(items, depth)
      ensures Position() == 0 && ringIndex == 0
      ensures ring[..] == Ahead(items, 0, depth)
    {
      L := depth;
      iter := Source(items, 0);
      ring := new Option<T>[depth](_ => None);
      ringIndex := 0;
      new;
      FreshBufferIsLookahead(ring[..], items);
      var i := 0;
      while i < depth
        invariant 0 <= i <= depth
        invariant Valid()
        invariant iter == Source(items, i)
        invariant ringIndex == if i < depth then i else 0
      {
        var _ := Next();
        ModBelowTwice(i + 1, depth);
        i := i + 1;
      }
      WindowFromZero(ring[..]);
    }

    /** The value `n` pulls ahead of the next `Next`, or None when `n` is at
        or beyond the lookahead depth, however much input remains. */
    function PeekNth(n: nat): (r: Option<T>)
      reads this, ring
      requires Valid()
      ensures n >= L ==> r == None
      ensures n < L ==> r == At(iter.items, Position() + n)
    {
      if n >= L then None
      else
        WindowAt(ring[..], ringIndex, n);
        ring[(ringIndex + n) % L]
    }

    /** The value the next `Next` returns, if the depth allows peeking at all. */
    function Peek(): (r: Option<T>)
      reads this, ring
      requires Valid()
      ensures r == PeekNth(0)
      ensures L == 0 ==> r == None
      ensures L > 0 ==> r == At(iter.items, Position())
    {
      PeekNth(0)
    }

    /** Advances: pulls the inner iterator once and returns the value that was
        due at offset 0. With a positive depth the pulled value takes the
        returned value's slot and the index moves on one slot; with depth 0
        the pulled value passes straight through. */
    method Next() returns (v: Option<T>)
      requires Valid()
      modifies this, ring
      ensures Valid()
      ensures iter == old(iter).Pull().1
      ensures v == At(iter.items, old(Position()))
      ensures Position() == old(Position()) + 1
      ensures L == 0 ==> v == old(iter).Pull().0 && ringIndex == old(ringIndex) && unchanged(ring)
      ensures L > 0 ==> v == old(ring[ringIndex])
      ensures L > 0 ==> ring[..] == old(ring[..])[old(ringIndex) := old(iter).Pull().0]
      ensures L > 0 ==> ringIndex == (old(ringIndex) + 1) % L
    {
      var pulled, rest := iter.Pull().0, iter.Pull().1;
      ghost var pos := Position();
      iter := rest;
      v := pulled;
      if L != 0 {
        ghost var before := ring[..];
        v := ring[ringIndex];
        ring[ringIndex] := pulled;
        SwapKeepsLookahead(before, ringIndex, iter.items, pos);
        ringIndex := (ringIndex + 1) % L;
        assert ring[..] == before[old(ringIndex) := pulled];
      }
    }
  }
}
