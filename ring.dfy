/** The circular indexing of the lookahead buffer: slot `(ringIndex + n) % L`
    holds offset `n`. */
module Ring {

  /** The buffer read in logical order, offset 0 first. */
  function Window<T>(ring: seq<T>, ringIndex: nat): seq<T>
    requires ringIndex < |ring| || ring == []
  {
    seq(|ring|, n requires 0 <= n < |ring| => ring[(ringIndex + n) % |ring|])
  }

  /** Offset `n` of the window is exactly one slot of the buffer. */
  lemma WindowAt<T>(ring: seq<T>, ringIndex: nat, n: nat)
    requires ringIndex < |ring| && n < |ring|
    ensures (ringIndex + n) % |ring| < |ring|
    ensures Window(ring, ringIndex)[n] == ring[(ringIndex + n) % |ring|]
  {
  }

  /** Read from slot 0, the window is the buffer itself. */
  lemma WindowFromZero<T>(ring: seq<T>)
    ensures Window(ring, 0) == ring
  {
  }

  /** `x % m` for `0 <= x < 2m`, without division. */
  lemma ModBelowTwice(x: int, m: int)
    requires 0 < m && 0 <= x < 2 * m
    ensures x % m == if x < m then x else x - m
  {
  }

  /** Swapping a new value into the slot at offset 0 and moving the index one
      slot on drops the oldest value from the front of the window and appends
      the new value at its back. */
  lemma Rotate<T>(ring: seq<T>, ringIndex: nat, v: T)
    requires ringIndex < |ring|
    ensures Window(ring[ringIndex := v], (ringIndex + 1) % |ring|) == Window(ring, ringIndex)[1..] + [v]
  {
    var L := |ring|;
    ModBelowTwice(ringIndex + 1, L);
    var next := (ringIndex + 1) % L;
    var a, b := Window(ring[ringIndex := v], next), Window(ring, ringIndex)[1..] + [v];
    forall n | 0 <= n < L ensures a[n] == b[n] {
      ModBelowTwice(next + n, L);
      if n < L - 1 {
        ModBelowTwice(ringIndex + n + 1, L);
        assert (next + n) % L == (ringIndex + (n + 1)) % L != ringIndex;
        assert b[n] == Window(ring, ringIndex)[n + 1];
      } else {
        assert (next + n) % L == ringIndex;
      }
    }
  }
}
