# Prepeek, modelled in Dafny

Prepeek wraps an iterator so that callers can look up to `L` items ahead
without consuming them. It keeps the next `L` not-yet-returned pull results in
a fixed-size ring buffer `ring` of optional items, together with `ring_index`,
the slot that holds offset 0. The constructor primes the buffer by calling
`next` `L` times. `next` pulls the wrapped iterator once, swaps the pulled
value into `ring[ring_index]`, returns what that slot held and moves
`ring_index` on by one modulo `L`; with `L == 0` it passes the pulled value
straight through. `peek_nth(n)` reads slot `(ring_index + n) % L`, or gives
None when `n >= L`. `peek` is `peek_nth(0)`.

The model has four modules:

- `Producer` (`producer.dfy`) models the wrapped iterator as a value
  `Source(items, pulled)`. It is a finite sequence plus the number of pulls so
  far. Pull number `i` yields `At(items, i)`: `Some(items[i])` inside the
  input and None after it, so the iterator is fused. `Ahead(items, start, d)`
  lists the `d` pull results from pull `start` onwards.
- `Ring` (`ring.dfy`) holds the circular indexing. `Window(ring, ringIndex)`
  reads the buffer in logical order, so that offset `n` is slot
  `(ringIndex + n) % |ring|`.
- `Prepeek` (`prepeek.dfy`) is the adapter, a class with the fields of the Rust
  struct. `L` is an immutable field. `ring` is an `array<Option<T>>` updated
  in place. `iter` holds the iterator's state and `ringIndex` is the index.
  The object invariant `Valid()` says that the window read from `ringIndex` is
  `Ahead(items, Position(), L)`. `Position()` is `pulled - L`: the input index
  of the value the next `Next` returns. An input index below 0 reads as None,
  so the all-None buffer of a fresh object meets the invariant before priming.
  Priming is then just the source's loop of `Next` calls.
- `Scenarios` (`scenarios.dfy`) gives the repository's three tests as methods
  that record what the adapter reports. It also has two general clients: one
  proves that peeking predicts advancing, and one drains a fresh adapter.

Transparency comes from three facts. The constructor leaves `Position() == 0`.
Every `Next` returns `At(items, Position())` and adds one to `Position()`.
`Producer.Transparent` says that this sequence of values is the input, in
order, followed by None. `Scenarios.Drain` puts the three together for any
depth and any number of advances at least the input length.

## Model

| member | source | states |
|---|---|---|
| Prepeek.Prepeek.constructor | src/lib.rs:17-28 | the iterator is pulled exactly `depth` times, `ring_index` ends at 0 and slot `n` holds pull result `n` (None past a short input), and the invariant holds |
| Prepeek.FreshBufferIsLookahead | src/lib.rs:18-22 | a buffer of None in every slot, read from slot 0, is exactly the lookahead of an adapter that has not pulled yet, so the invariant holds before priming |
| Prepeek.Prepeek.PeekNth | src/lib.rs:42-48 | for `n >= L` the result is None however much input remains; for `n < L` it is input element `Position() + n`, or None past the end of the input |
| Prepeek.Prepeek.Peek | src/lib.rs:35-37 | equals `PeekNth(0)`: None when `L == 0`, otherwise the value the next `Next` returns |
| Prepeek.Prepeek.Next | src/lib.rs:54-61 | pulls exactly once. It returns input element `Position()` and advances `Position()` by one. For `L > 0` it returns the old slot `ring_index`, stores the pulled value there, leaves every other slot alone and sets `ring_index := (ring_index + 1) % L`. For `L == 0` it returns the pulled value and leaves the ring and index untouched. The invariant is preserved |
| Ring.Rotate | src/lib.rs:57-58 | swapping a value into the offset-0 slot and advancing the index removes the front of the logical window and appends the value at its back |
| Prepeek.SwapKeepsLookahead | src/lib.rs:54-61 | on a buffer holding the next `L` values, offset 0 holds the value due now, and the swap-and-advance leaves it holding the next `L` values one position further on |
| Producer.AheadShift | src/lib.rs:55-58 | the lookahead one pull later is the current lookahead without its head, followed by the value of the new pull |
| Producer.Transparent | src/lib.rs:51-61 | the first `k` pulls of the wrapped iterator, for `k` at least the input length, give every item once and in order, then None |
| Scenarios.Drain | src/lib.rs:17-61 | for every depth, a fresh adapter over `items` advanced `k` times, for `k` at least the input length, returns every item once and in order, then only None: nothing is lost, duplicated or reordered |
| Scenarios.SimpleTrace | src/lib.rs:69-90 | depth 2 over [1,2,3]: advances give 1, 2, 3, and offsets 0..2 read [1,2,None], [2,3,None], [3,None,None], [None,None,None] before and after each advance |
| Scenarios.NoPrefetchTrace | src/lib.rs:93-98 | depth 0 over [1,2,3]: peek is None and advances give 1, 2, 3 and then None (the source test checks only the first advance) |
| Scenarios.OverallocatedTrace | src/lib.rs:101-110 | depth 5 over [1,2,3]: advances give 1, 2, 3, after which offsets 0..2 are all None |
| Scenarios.PeekPredictsNext | src/lib.rs:42-61 | for every valid adapter and every `n < L`, `PeekNth(n)` now equals the value returned by the `(n+1)`-th `Next` from now |

## Left out

- The wrapped iterator is a finite, fused sequence. A general Rust `Iterator` could yield values again after a None; the adapter does not special-case that, and the model does not cover it.
- Const generics and borrows: `L` is an immutable field set by the constructor. `peek` and `peek_nth` return the `Option` value, not a reference into the buffer.
- `std::mem::replace` is modelled as reading one array slot and then writing it; Rust move semantics are not modelled.
- `usize` arithmetic is not bounded in the model. `ring_index + n` and `ring_index + 1` are each below `2 * L`, so they cannot overflow for any buffer that fits in memory.
- The unused `use std::usize` import has no behaviour.
