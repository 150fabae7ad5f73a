/** The inner iterator a Prepeek wraps, modelled as a finite sequence of items
    and a count of how many times it has been pulled. Once the items run out
    every further pull yields None: the producer is fused. */
module Producer {

  datatype Option<+T> = None | Some(value: T)

  /** What pull number `i` (counting from 0) of a producer over `items` yields.
      A negative `i` names a pull that has not happened yet; it reads as None,
      like a ring slot that priming has not filled. */
  function At<T>(items: seq<T>, i: int): Option<T>
  {
    if 0 <= i < |items| then Some(items[i]) else None
  }

  /** The state of the inner iterator: its items and the number of pulls so far. */
  datatype Source<T> = Source(items: seq<T>, pulled: nat)
  {
    /** One call of the inner iterator's `next`: the value of this pull and the
        producer after it. */
    function Pull(): (Option<T>, Source<T>)
    {
      (At(items, pulled), Source(items, pulled + 1))
    }
  }

  /** The `depth` pull results that follow pull number `start`, in order. */
  function Ahead<T>(items: seq<T>, start: int, depth: nat): seq<Option<T>>
  {
    seq(depth, n => At(items, start + n))
  }

  /** Dropping the first of the upcoming values and appending the next pull's
      value gives the window one pull further on. */
  lemma AheadShift<T>(items: seq<T>, start: int, depth: nat)
    requires depth > 0
    ensures Ahead(items, start + 1, depth) == Ahead(items, start, depth)[1..] + [At(items, start + depth)]
  {
  }

  /** One more pull appends its value to the results so far. */
  lemma AheadExtend<T>(items: seq<T>, start: int, depth: nat)
    ensures Ahead(items, start, depth + 1) == Ahead(items, start, depth) + [At(items, start + depth)]
  {
  }

  /** A fused producer over `items`, pulled `k >= |items|` times, yields every
      item once and in order, then only None. */
  lemma Transparent<T>(items: seq<T>, k: nat)
    requires |items| <= k
    ensures Ahead(items, 0, k) == seq(|items|, i requires 0 <= i < |items| => Some(items[i])) + seq(k - |items|, _ => None)
  {
    var somes := seq(|items|, i requires 0 <= i < |items| => Some(items[i]));
    var rhs := somes + seq(k - |items|, _ => None);
    forall i | 0 <= i < k ensures Ahead(items, 0, k)[i] == rhs[i] {
      if i < |items| {
        assert rhs[i] == somes[i] == Some(items[i]);
      } else {
        assert rhs[i] == None;
      }
    }
  }
}
